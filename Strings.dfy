/**
 * Cutting and splitting text at a separator character. The firmware-version
 * grammar is stated with these two operations: the version is cut at its
 * first `+` and its first `-`, and each section is split at its dots.
 */
module Strings {

  datatype Option<+T> = None | Some(value: T)

  function Last<T>(s: seq<T>): T
    requires |s| >= 1
  {
    s[|s| - 1]
  }

  /** `s` cut at the first occurrence of `sep`: the text before it and, when
      `sep` occurs at all, the text after it. */
  function CutAtFirst(s: string, sep: char): (r: (string, Option<string>))
    ensures r.1.None? ==> r.0 == s && sep !in s
    ensures r.1.Some? ==> s == r.0 + [sep] + r.1.value && sep !in r.0
  {
    if |s| == 0 then ("", None)
    else if s[0] == sep then ("", Some(s[1..]))
    else
      var rest := CutAtFirst(s[1..], sep);
      assert s == [s[0]] + s[1..];
      ([s[0]] + rest.0, rest.1)
  }

  /** The parts glued back together, one `sep` between neighbours. */
  function Join(parts: seq<string>, sep: char): string
    requires |parts| >= 1
    decreases |parts|
  {
    if |parts| == 1 then parts[0] else parts[0] + [sep] + Join(parts[1..], sep)
  }

  /** The maximal `sep`-free pieces of `s`, in order; never empty (the empty
      text is one empty piece). JoinSplit and SplitJoin show that Split and
      Join are inverse. */
  function Split(s: string, sep: char): (parts: seq<string>)
    ensures |parts| >= 1
    ensures forall k :: 0 <= k < |parts| ==> sep !in parts[k]
    decreases |s|
  {
    var cut := CutAtFirst(s, sep);
    if cut.1.None? then [s]
    else [cut.0] + Split(cut.1.value, sep)
  }

  /** Joining the pieces gives back the text. */
  lemma {:induction false} JoinSplit(s: string, sep: char)
    ensures Join(Split(s, sep), sep) == s
    decreases |s|
  {
    var cut := CutAtFirst(s, sep);
    if cut.1.Some? {
      var rest := Split(cut.1.value, sep);
      JoinSplit(cut.1.value, sep);
      assert ([cut.0] + rest)[1..] == rest;
    }
  }

  /** Text before the first separator does not change where the cut falls. */
  lemma {:induction false} CutAppend(x: string, y: string, sep: char)
    requires sep !in x
    ensures CutAtFirst(x + y, sep) == (x + CutAtFirst(y, sep).0, CutAtFirst(y, sep).1)
    decreases |x|
  {
    if x == [] {
      assert x + y == y;
      assert x + CutAtFirst(y, sep).0 == CutAtFirst(y, sep).0;
    } else {
      assert (x + y)[0] == x[0];
      assert (x + y)[1..] == x[1..] + y;
      CutAppend(x[1..], y, sep);
      assert [x[0]] + (x[1..] + CutAtFirst(y, sep).0) == x + CutAtFirst(y, sep).0;
    }
  }

  /** The cut falls on the first separator. */
  lemma CutAtSeparator(x: string, y: string, sep: char)
    requires sep !in x
    ensures CutAtFirst(x + [sep] + y, sep) == (x, Some(y))
  {
    CutAppend(x, [sep] + y, sep);
    assert x + [sep] + y == x + ([sep] + y);
    assert ([sep] + y)[1..] == y;
    assert x + "" == x;
  }

  /** Regrouping a concatenation; CutAfter uses it to keep its proof small. */
  lemma AppendAssoc(a: string, b: string, c: string)
    ensures a + b + c == a + (b + c)
  {
  }

  /** Text after the separator does not change where the cut falls. */
  lemma CutAfter(x: string, z: string, sep: char)
    requires CutAtFirst(x, sep).1.Some?
    ensures CutAtFirst(x + z, sep) == (CutAtFirst(x, sep).0, Some(CutAtFirst(x, sep).1.value + z))
  {
    var cut := CutAtFirst(x, sep);
    var before, after := cut.0, cut.1.value;
    assert x == before + [sep] + after;
    AppendAssoc(before + [sep], after, z);
    CutAtSeparator(before, after + z, sep);
  }

  /** A text that does not start with the separator keeps its first
      character before the cut. */
  lemma CutKeepsHead(s: string, sep: char)
    requires |s| > 0 && s[0] != sep
    ensures |CutAtFirst(s, sep).0| > 0 && CutAtFirst(s, sep).0[0] == s[0]
  {
  }

  /** Splitting a concatenation: the last piece of `x` and the first piece of
      `y` fuse, every other piece stays as it was. */
  lemma {:induction false} SplitAppend(x: string, y: string, sep: char)
    ensures var xs, ys := Split(x, sep), Split(y, sep);
      Split(x + y, sep) == xs[..|xs| - 1] + [Last(xs) + ys[0]] + ys[1..]
    decreases |x|
  {
    var cut := CutAtFirst(x, sep);
    if cut.1.None? {
      SplitAppendPiece(x, y, sep);
    } else {
      var h, t := cut.0, cut.1.value;
      var ts, ys := Split(t, sep), Split(y, sep);
      assert x + y == h + [sep] + (t + y);
      CutAtSeparator(h, t + y, sep);
      assert Split(x + y, sep) == [h] + Split(t + y, sep);
      SplitAppend(t, y, sep);
      assert Split(x, sep) == [h] + ts;
      ConsSplice(h, ts, ys[0], ys[1..]);
    }
  }

  /** SplitAppend's shape is kept when a piece is put in front. */
  lemma ConsSplice(h: string, ts: seq<string>, z: string, rest: seq<string>)
    requires |ts| >= 1
    ensures var xs := [h] + ts;
      [h] + (ts[..|ts| - 1] + [Last(ts) + z] + rest) == xs[..|xs| - 1] + [Last(xs) + z] + rest
  {
    var xs := [h] + ts;
    assert xs[..|xs| - 1] == [h] + ts[..|ts| - 1];
  }

  /** SplitAppend when `x` is a single piece. */
  lemma SplitAppendPiece(x: string, y: string, sep: char)
    requires sep !in x
    ensures var ys := Split(y, sep); Split(x + y, sep) == [x + ys[0]] + ys[1..]
  {
    CutAppend(x, y, sep);
    var cy := CutAtFirst(y, sep);
    if cy.1.Some? {
      assert Split(y, sep) == [cy.0] + Split(cy.1.value, sep);
    }
  }

  /** Split and Join are inverse: the pieces are recovered from the joined text
      whenever none of them contains the separator. */
  lemma {:induction false} SplitJoin(parts: seq<string>, sep: char)
    requires |parts| >= 1
    requires forall k :: 0 <= k < |parts| ==> sep !in parts[k]
    ensures Split(Join(parts, sep), sep) == parts
    decreases |parts|
  {
    if |parts| > 1 {
      var rest := parts[1..];
      assert forall k :: 0 <= k < |rest| ==> sep !in rest[k] by {
        forall k | 0 <= k < |rest| ensures sep !in rest[k] {
          assert rest[k] == parts[k + 1];
        }
      }
      SplitJoin(rest, sep);
      CutAtSeparator(parts[0], Join(rest, sep), sep);
      assert parts == [parts[0]] + rest;
    }
  }
}
