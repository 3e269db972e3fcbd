/**
 * The firmware-version check of the readings endpoint: the anchored pattern
 * for Semantic Versioning 2.0.0,
 *
 *   MAJOR.MINOR.PATCH[-PRERELEASE][+BUILD]
 *
 * where each of MAJOR, MINOR and PATCH is `0|[1-9]\d*`; PRERELEASE is one or
 * more dot-separated identifiers, each `0|[1-9]\d*` or
 * `\d*[a-zA-Z-][0-9a-zA-Z-]*`; and BUILD is one or more dot-separated
 * `[0-9a-zA-Z-]+` identifiers.
 *
 * It is stated twice: declaratively (IsSemVer: cut the text at its first `+`,
 * the rest at its first `-`, split each section at its dots and classify each
 * identifier) and as a scanner that reads the text one character at a time,
 * remembering only a small record: the section, two counters and two flags
 * (Recognise). RunCorrect proves that the two agree on every string.
 */
module SemVer {
  import opened Strings

  // ---------------------------------------------------------------------
  // Character classes and identifiers
  // ---------------------------------------------------------------------

  /** `\d`, read as the ASCII digits. */
  predicate IsDigit(c: char) {
    '0' <= c <= '9'
  }

  /** `[a-zA-Z-]` */
  predicate IsNonDigit(c: char) {
    'a' <= c <= 'z' || 'A' <= c <= 'Z' || c == '-'
  }

  /** `[0-9a-zA-Z-]` */
  predicate IsIdentifierChar(c: char) {
    IsDigit(c) || IsNonDigit(c)
  }

  predicate AllDigits(s: string) {
    forall i :: 0 <= i < |s| ==> IsDigit(s[i])
  }

  predicate AllIdentifierChars(s: string) {
    forall i :: 0 <= i < |s| ==> IsIdentifierChar(s[i])
  }

  /** `0|[1-9]\d*`: a number without leading zeros. */
  predicate NumericIdentifier(s: string) {
    s == "0" || (|s| >= 1 && '1' <= s[0] <= '9' && AllDigits(s[1..]))
  }

  /** `\d*[a-zA-Z-][0-9a-zA-Z-]*`: the first non-digit splits it. */
  predicate AlphanumericIdentifier(s: string) {
    exists k :: 0 <= k < |s| && AllDigits(s[..k]) && IsNonDigit(s[k]) && AllIdentifierChars(s[k + 1..])
  }

  /** The three sections of a version, in the order they appear. */
  datatype Section = Core | PreRelease | Build

  /** The identifiers a section is made of. */
  predicate IsIdentifier(section: Section, s: string) {
    match section
    case Core => NumericIdentifier(s)
    case PreRelease => NumericIdentifier(s) || AlphanumericIdentifier(s)
    case Build => |s| >= 1 && AllIdentifierChars(s)
  }

  predicate AllIdentifiers(section: Section, parts: seq<string>) {
    forall k :: 0 <= k < |parts| ==> IsIdentifier(section, parts[k])
  }

  // ---------------------------------------------------------------------
  // The grammar, declaratively
  // ---------------------------------------------------------------------

  /** A section's text: dot-separated identifiers of its kind, exactly three
      of them in the version core. */
  predicate WellFormed(section: Section, s: string) {
    var parts := Split(s, '.');
    AllIdentifiers(section, parts) && (section == Core ==> |parts| == 3)
  }

  /** The text before `+`: the version core, then an optional pre-release
      after the first `-` (the core holds no `-`). */
  predicate MainPart(s: string) {
    var cut := CutAtFirst(s, '-');
    WellFormed(Core, cut.0) && (cut.1.Some? ==> WellFormed(PreRelease, cut.1.value))
  }

  /** The whole version: the main part, then optional build metadata after
      the first `+` (neither the core nor the pre-release holds a `+`). */
  predicate IsSemVer(v: string) {
    var cut := CutAtFirst(v, '+');
    MainPart(cut.0) && (cut.1.Some? ==> WellFormed(Build, cut.1.value))
  }

  // ---------------------------------------------------------------------
  // The scanner
  // ---------------------------------------------------------------------

  /** What the scanner remembers of the text read so far: the section it is
      in, how many identifiers of that section are complete, and the length,
      first digit and digit-only-ness of the identifier being read. */
  datatype Scanner = Scanner(section: Section, fields: nat, len: nat, leadingZero: bool, digitsOnly: bool)

  /** The state at the start of a section. */
  function Begin(section: Section): Scanner {
    Scanner(section, 0, 0, false, true)
  }

  /** Characters an identifier of the section may hold. */
  predicate CharAllowed(section: Section, c: char) {
    if section == Core then IsDigit(c) else IsIdentifierChar(c)
  }

  /** One more character of the current identifier. */
  function Extend(st: Scanner, c: char): Scanner {
    st.(len := st.len + 1,
        leadingZero := if st.len == 0 then c == '0' else st.leadingZero,
        digitsOnly := st.digitsOnly && IsDigit(c))
  }

  /** A dot: the current identifier is complete, the next one starts. */
  function NextField(st: Scanner): Scanner {
    Begin(st.section).(fields := st.fields + 1)
  }

  predicate NumericDone(st: Scanner) {
    st.len > 0 && st.digitsOnly && (st.len == 1 || !st.leadingZero)
  }

  /** The current identifier, as read so far, is one its section accepts. */
  predicate IdentifierDone(st: Scanner) {
    match st.section
    case Core => NumericDone(st)
    case PreRelease => NumericDone(st) || !st.digitsOnly
    case Build => st.len > 0
  }

  /** The current section may end here. */
  predicate SectionDone(st: Scanner) {
    IdentifierDone(st) && (st.section == Core ==> st.fields == 2)
  }

  /** Reads one character; None when no continuation can be a version. */
  function Step(st: Scanner, c: char): Option<Scanner> {
    if c == '.' then
      if IdentifierDone(st) && (st.section == Core ==> st.fields < 2) then Some(NextField(st)) else None
    else if c == '-' && st.section == Core then
      if SectionDone(st) then Some(Begin(PreRelease)) else None
    else if c == '+' && st.section != Build then
      if SectionDone(st) then Some(Begin(Build)) else None
    else if CharAllowed(st.section, c) then
      Some(Extend(st, c))
    else
      None
  }

  /** Scans `v` from index `i` on, in state `st`. */
  function Run(v: string, i: nat, st: Scanner): bool
    requires i <= |v|
    decreases |v| - i
  {
    if i == |v| then SectionDone(st)
    else
      match Step(st, v[i])
      case None => false
      case Some(next) => Run(v, i + 1, next)
  }

  /** The executable firmware-version check. */
  function Recognise(v: string): (ok: bool)
    ensures ok <==> IsSemVer(v)
  {
    ScannerDecides(v);
    Run(v, 0, Begin(Core))
  }

  // ---------------------------------------------------------------------
  // The anchored match
  // ---------------------------------------------------------------------

  /** The pattern is anchored by `^` and `$`. Without the multiline option
      `$` matches at the very end of the text and also just before a final
      line feed, so a version followed by one `\n` matches too. */
  predicate PatternMatches(v: string) {
    IsSemVer(v) || (|v| >= 1 && Last(v) == '\n' && IsSemVer(v[..|v| - 1]))
  }

  /** The executable match of the firmware version against the pattern. */
  function IsMatch(v: string): (ok: bool)
    ensures ok <==> PatternMatches(v)
  {
    Recognise(v) || (|v| >= 1 && v[|v| - 1] == '\n' && Recognise(v[..|v| - 1]))
  }

  // ---------------------------------------------------------------------
  // What the scanner's state means
  // ---------------------------------------------------------------------

  predicate AllAllowed(section: Section, s: string) {
    forall i :: 0 <= i < |s| ==> CharAllowed(section, s[i])
  }

  /** `st` records the identifier `id` read so far. */
  ghost predicate Describes(st: Scanner, id: string) {
    && st.len == |id|
    && st.digitsOnly == AllDigits(id)
    && st.leadingZero == (|id| > 0 && id[0] == '0')
  }

  /** `seg`, the text of the current section read so far, is a run of
      complete identifiers and a last, unfinished one that `st` records. */
  ghost predicate Segment(st: Scanner, seg: string) {
    var parts := Split(seg, '.');
    && st.fields == |parts| - 1
    && AllIdentifiers(st.section, parts[..|parts| - 1])
    && AllAllowed(st.section, Last(parts))
    && Describes(st, Last(parts))
    && (st.section == Core ==> st.fields <= 2)
  }

  /** `st` is the scanner's state after reading `p`. */
  ghost predicate Scanned(p: string, st: Scanner) {
    match st.section
    case Core =>
      '+' !in p && '-' !in p && Segment(st, p)
    case PreRelease =>
      var cut := CutAtFirst(p, '-');
      '+' !in p && cut.1.Some? && WellFormed(Core, cut.0) && Segment(st, cut.1.value)
    case Build =>
      var cut := CutAtFirst(p, '+');
      cut.1.Some? && MainPart(cut.0) && Segment(st, cut.1.value)
  }

  // ---------------------------------------------------------------------
  // Identifier lemmas
  // ---------------------------------------------------------------------

  /** The regular-expression form of an alphanumeric identifier is the same
      as "identifier characters, not all of them digits". */
  lemma AlphanumericIff(s: string)
    ensures AlphanumericIdentifier(s) <==> AllIdentifierChars(s) && !AllDigits(s)
  {
    if AlphanumericIdentifier(s) {
      AlphanumericChars(s);
    }
    if AllIdentifierChars(s) && !AllDigits(s) {
      AlphanumericWitness(s);
    }
  }

  lemma AlphanumericChars(s: string)
    requires AlphanumericIdentifier(s)
    ensures AllIdentifierChars(s) && !AllDigits(s)
  {
    var k :| 0 <= k < |s| && AllDigits(s[..k]) && IsNonDigit(s[k]) && AllIdentifierChars(s[k + 1..]);
    forall i | 0 <= i < |s| ensures IsIdentifierChar(s[i]) {
      if i < k { assert s[..k][i] == s[i]; }
      else if i > k { assert s[k + 1..][i - k - 1] == s[i]; }
    }
  }

  /** The first non-digit is the `[a-zA-Z-]` of the pattern. */
  lemma {:induction false} AlphanumericWitness(s: string)
    requires AllIdentifierChars(s) && !AllDigits(s)
    ensures AlphanumericIdentifier(s)
    decreases |s|
  {
    var t := s[1..];
    if IsDigit(s[0]) {
      assert AllIdentifierChars(t) by {
        forall i | 0 <= i < |t| ensures IsIdentifierChar(t[i]) { assert t[i] == s[i + 1]; }
      }
      assert !AllDigits(t) by {
        var j :| 0 <= j < |s| && !IsDigit(s[j]);
        assert j > 0 && t[j - 1] == s[j];
      }
      AlphanumericWitness(t);
      var k :| 0 <= k < |t| && AllDigits(t[..k]) && IsNonDigit(t[k]) && AllIdentifierChars(t[k + 1..]);
      var d := s[..k + 1];
      assert d == [s[0]] + t[..k];
      assert AllDigits(d) by {
        forall i | 0 <= i < |d| ensures IsDigit(d[i]) {
          if i > 0 { assert d[i] == t[..k][i - 1]; }
        }
      }
      assert s[k + 2..] == t[k + 1..];
      assert s[k + 1] == t[k];
    } else {
      assert s[..0] == [];
      assert AllIdentifierChars(t) by {
        forall i | 0 <= i < |t| ensures IsIdentifierChar(t[i]) { assert t[i] == s[i + 1]; }
      }
      assert AllDigits(s[..0]) && IsNonDigit(s[0]) && AllIdentifierChars(s[0 + 1..]);
    }
  }

  /** Every identifier consists of characters its section allows. */
  lemma IdentifierChars(section: Section, id: string)
    requires IsIdentifier(section, id)
    ensures AllAllowed(section, id)
  {
    if NumericIdentifier(id) {
      forall i | 0 <= i < |id| ensures IsDigit(id[i]) {
        if i > 0 { assert id[1..][i - 1] == id[i]; }
      }
    } else if section == PreRelease {
      AlphanumericIff(id);
    }
  }

  /** The scanner's verdict on the current identifier is the grammar's. */
  lemma IdentifierDoneIff(st: Scanner, id: string)
    requires Describes(st, id) && AllAllowed(st.section, id)
    ensures IdentifierDone(st) <==> IsIdentifier(st.section, id)
  {
    if |id| >= 1 && AllDigits(id) {
      var tail := id[1..];
      forall i | 0 <= i < |tail| ensures IsDigit(tail[i]) { assert tail[i] == id[i + 1]; }
    }
    if |id| >= 1 && AllDigits(id[1..]) && IsDigit(id[0]) {
      forall i | 0 <= i < |id| ensures IsDigit(id[i]) {
        if i > 0 { assert id[i] == id[1..][i - 1]; }
      }
    }
    if |id| == 1 && id[0] == '0' {
      assert id == "0";
    }
    if NumericIdentifier(id) {
      IdentifierChars(Core, id);
    }
    if st.section == PreRelease {
      AlphanumericIff(id);
      assert AllIdentifierChars(id) by {
        forall i | 0 <= i < |id| ensures IsIdentifierChar(id[i]) { assert CharAllowed(PreRelease, id[i]); }
      }
    } else if st.section == Build {
      assert AllIdentifierChars(id) by {
        forall i | 0 <= i < |id| ensures IsIdentifierChar(id[i]) { assert CharAllowed(Build, id[i]); }
      }
    }
  }

  // ---------------------------------------------------------------------
  // Segment lemmas: one section, one character at a time
  // ---------------------------------------------------------------------

  lemma SplitOneChar(c: char)
    requires c != '.'
    ensures Split([c], '.') == [[c]]
  {
    assert CutAtFirst([c], '.').1.None?;
  }

  lemma SplitDot()
    ensures Split(".", '.') == ["", ""]
  {
    assert CutAtFirst(".", '.') == ("", Some(""));
    assert CutAtFirst("", '.') == ("", None);
  }

  lemma SegmentBegin(section: Section)
    ensures Segment(Begin(section), "")
  {
    assert CutAtFirst("", '.') == ("", None);
    assert Split("", '.') == [""];
  }

  lemma SegmentExtend(st: Scanner, seg: string, c: char)
    requires Segment(st, seg) && c != '.' && CharAllowed(st.section, c)
    ensures Segment(Extend(st, c), seg + [c])
  {
    var xs := Split(seg, '.');
    SplitAppend(seg, [c], '.');
    SplitOneChar(c);
    var ys := Split(seg + [c], '.');
    assert ys == xs[..|xs| - 1] + [Last(xs) + [c]];
    assert ys[..|ys| - 1] == xs[..|xs| - 1];
    DescribesExtend(st, Last(xs), c);
  }

  /** Extend records one more character of the current identifier. */
  lemma DescribesExtend(st: Scanner, id: string, c: char)
    requires Describes(st, id) && AllAllowed(st.section, id) && CharAllowed(st.section, c)
    ensures Describes(Extend(st, c), id + [c]) && AllAllowed(st.section, id + [c])
  {
    var id' := id + [c];
    assert AllDigits(id') <==> AllDigits(id) && IsDigit(c) by {
      if AllDigits(id) && IsDigit(c) {
        forall i | 0 <= i < |id'| ensures IsDigit(id'[i]) {
          if i < |id| { assert id'[i] == id[i]; }
        }
      }
      if AllDigits(id') {
        assert id'[|id|] == c;
        forall i | 0 <= i < |id| ensures IsDigit(id[i]) { assert id'[i] == id[i]; }
      }
    }
    forall i | 0 <= i < |id'| ensures CharAllowed(st.section, id'[i]) {
      if i < |id| { assert id'[i] == id[i]; }
    }
    if |id| > 0 { assert id'[0] == id[0]; }
  }

  lemma SegmentNext(st: Scanner, seg: string)
    requires Segment(st, seg) && IdentifierDone(st) && (st.section == Core ==> st.fields < 2)
    ensures Segment(NextField(st), seg + ".")
  {
    var xs := Split(seg, '.');
    SplitAppend(seg, ".", '.');
    SplitDot();
    var ys := Split(seg + ".", '.');
    assert Last(xs) + "" == Last(xs);
    assert xs[..|xs| - 1] + [Last(xs)] == xs;
    assert ys == xs + [""];
    IdentifierDoneIff(st, Last(xs));
    assert ys[..|ys| - 1] == xs;
  }

  /** At the end of a section the scanner's verdict is the grammar's. */
  lemma SegmentDone(st: Scanner, seg: string)
    requires Segment(st, seg)
    ensures SectionDone(st) <==> WellFormed(st.section, seg)
  {
    var xs := Split(seg, '.');
    IdentifierDoneIff(st, Last(xs));
    assert xs == xs[..|xs| - 1] + [Last(xs)];
  }

  /** A dot that the scanner refuses makes the section ill-formed, whatever
      follows. */
  lemma SegmentDeadDot(st: Scanner, seg: string, tail: string)
    requires Segment(st, seg) && |tail| > 0 && tail[0] == '.'
    requires !(IdentifierDone(st) && (st.section == Core ==> st.fields < 2))
    ensures !WellFormed(st.section, seg + tail)
  {
    var xs := Split(seg, '.');
    SplitAppend(seg, tail, '.');
    assert Split(tail, '.') == [""] + Split(tail[1..], '.');
    var zs := Split(seg + tail, '.');
    assert Last(xs) + "" == Last(xs);
    assert zs == xs[..|xs| - 1] + [Last(xs)] + Split(tail[1..], '.');
    assert zs[|xs| - 1] == Last(xs);
    if !IdentifierDone(st) {
      IdentifierDoneIff(st, Last(xs));
    } else {
      assert |zs| >= |xs| + 1;
    }
  }

  /** A character the section does not allow makes it ill-formed, whatever
      follows. */
  lemma SegmentDeadChar(st: Scanner, seg: string, tail: string)
    requires Segment(st, seg) && |tail| > 0 && tail[0] != '.'
    requires !CharAllowed(st.section, tail[0])
    ensures !WellFormed(st.section, seg + tail)
  {
    var xs := Split(seg, '.');
    SplitAppend(seg, tail, '.');
    CutKeepsHead(tail, '.');
    var head := Split(tail, '.')[0];
    assert head == CutAtFirst(tail, '.').0;
    var part := Split(seg + tail, '.')[|xs| - 1];
    assert part == Last(xs) + head;
    assert part[|Last(xs)|] == tail[0];
    if IsIdentifier(st.section, part) {
      IdentifierChars(st.section, part);
    }
  }

  // ---------------------------------------------------------------------
  // The scanner and the grammar agree
  // ---------------------------------------------------------------------

  /** In the core, the text read so far is a prefix of the core of the whole
      version. */
  lemma CorePrefix(p: string, tail: string)
    requires '+' !in p && '-' !in p
    ensures CutAtFirst(CutAtFirst(p + tail, '+').0, '-').0
         == p + CutAtFirst(CutAtFirst(tail, '+').0, '-').0
  {
    CutAppend(p, tail, '+');
    CutAppend(p, CutAtFirst(tail, '+').0, '-');
  }

  /** A version is rejected when its core is ill-formed ... */
  lemma RejectCore(v: string)
    requires !WellFormed(Core, CutAtFirst(CutAtFirst(v, '+').0, '-').0)
    ensures !IsSemVer(v)
  {
  }

  /** ... when its pre-release is ill-formed ... */
  lemma RejectPreRelease(v: string, pre: string)
    requires CutAtFirst(CutAtFirst(v, '+').0, '-').1 == Some(pre)
    requires !WellFormed(PreRelease, pre)
    ensures !IsSemVer(v)
  {
  }

  /** ... and when its build metadata is ill-formed. */
  lemma RejectBuild(v: string, build: string)
    requires CutAtFirst(v, '+').1 == Some(build) && !WellFormed(Build, build)
    ensures !IsSemVer(v)
  {
  }

  /** In the core, a `-` or `+` ends the core. */
  lemma CoreEnds(p: string, tail: string, st: Scanner)
    requires st.section == Core && Scanned(p, st) && |tail| > 0 && tail[0] in "-+"
    ensures Step(st, tail[0]).None? ==> !IsSemVer(p + tail)
    ensures Step(st, tail[0]).Some? ==> Scanned(p + [tail[0]], Step(st, tail[0]).value)
  {
    var c := tail[0];
    SegmentDone(st, p);
    if SectionDone(st) {
      SegmentBegin(if c == '-' then PreRelease else Build);
      CutAtSeparator(p, "", c);
      assert p + [c] + "" == p + [c];
      assert CutAtFirst(p, '-').1.None?;
    } else {
      CoreCutShort(p, tail);
    }
  }

  /** A core that ends before it is well-formed rejects the version. */
  lemma CoreCutShort(p: string, tail: string)
    requires '+' !in p && '-' !in p && !WellFormed(Core, p)
    requires |tail| > 0 && tail[0] in "-+"
    ensures !IsSemVer(p + tail)
  {
    var m := CutAtFirst(tail, '+').0;
    CutAppend(p, tail, '+');
    assert CutAtFirst(p + tail, '+').0 == p + m;
    if tail[0] == '-' {
      CutKeepsHead(tail, '+');
      CutAppend(p, m, '-');
      assert CutAtFirst(m, '-').0 == "";
    } else {
      assert m == "";
      assert CutAtFirst(p, '-').1.None?;
    }
    assert p + "" == p;
    assert CutAtFirst(p + m, '-').0 == p;
    RejectCore(p + tail);
  }

  /** In the core, any other character stays inside the core. */
  lemma CoreContinues(p: string, tail: string, st: Scanner)
    requires st.section == Core && Scanned(p, st) && |tail| > 0 && tail[0] !in "-+"
    ensures Step(st, tail[0]).None? ==> !IsSemVer(p + tail)
    ensures Step(st, tail[0]).Some? ==> Scanned(p + [tail[0]], Step(st, tail[0]).value)
  {
    var c := tail[0];
    if Step(st, c).None? {
      var m := CutAtFirst(tail, '+').0;
      CutKeepsHead(tail, '+');
      CutKeepsHead(m, '-');
      var core := CutAtFirst(m, '-').0;
      CorePrefix(p, tail);
      if c == '.' {
        SegmentDeadDot(st, p, core);
      } else {
        SegmentDeadChar(st, p, core);
      }
      RejectCore(p + tail);
    } else if c == '.' {
      SegmentNext(st, p);
    } else {
      SegmentExtend(st, p, c);
    }
  }

  /** In the pre-release, a `+` ends the pre-release. */
  lemma PreReleaseEnds(p: string, tail: string, st: Scanner)
    requires st.section == PreRelease && Scanned(p, st) && |tail| > 0 && tail[0] == '+'
    ensures Step(st, tail[0]).None? ==> !IsSemVer(p + tail)
    ensures Step(st, tail[0]).Some? ==> Scanned(p + [tail[0]], Step(st, tail[0]).value)
  {
    var pre := CutAtFirst(p, '-').1.value;
    SegmentDone(st, pre);
    if SectionDone(st) {
      SegmentBegin(Build);
      CutAtSeparator(p, "", '+');
      assert p + ['+'] + "" == p + ['+'];
    } else {
      CutAppend(p, tail, '+');
      assert CutAtFirst(tail, '+').0 == "";
      assert p + "" == p;
      RejectPreRelease(p + tail, pre);
    }
  }

  /** In the pre-release, any other character stays inside it. */
  lemma PreReleaseContinues(p: string, tail: string, st: Scanner)
    requires st.section == PreRelease && Scanned(p, st) && |tail| > 0 && tail[0] != '+'
    ensures Step(st, tail[0]).None? ==> !IsSemVer(p + tail)
    ensures Step(st, tail[0]).Some? ==> Scanned(p + [tail[0]], Step(st, tail[0]).value)
  {
    var c := tail[0];
    var pre := CutAtFirst(p, '-').1.value;
    if Step(st, c).None? {
      var m := CutAtFirst(tail, '+').0;
      CutAppend(p, tail, '+');
      CutKeepsHead(tail, '+');
      CutAfter(p, m, '-');
      if c == '.' {
        SegmentDeadDot(st, pre, m);
      } else {
        SegmentDeadChar(st, pre, m);
      }
      RejectPreRelease(p + tail, pre + m);
    } else {
      CutAfter(p, [c], '-');
      if c == '.' {
        SegmentNext(st, pre);
      } else {
        SegmentExtend(st, pre, c);
      }
    }
  }

  /** In the build metadata every character stays inside it. */
  lemma BuildContinues(p: string, tail: string, st: Scanner)
    requires st.section == Build && Scanned(p, st) && |tail| > 0
    ensures Step(st, tail[0]).None? ==> !IsSemVer(p + tail)
    ensures Step(st, tail[0]).Some? ==> Scanned(p + [tail[0]], Step(st, tail[0]).value)
  {
    var c := tail[0];
    var b := CutAtFirst(p, '+').1.value;
    if Step(st, c).None? {
      CutAfter(p, tail, '+');
      if c == '.' {
        SegmentDeadDot(st, b, tail);
      } else {
        SegmentDeadChar(st, b, tail);
      }
      RejectBuild(p + tail, b + tail);
    } else {
      CutAfter(p, [c], '+');
      if c == '.' {
        SegmentNext(st, b);
      } else {
        SegmentExtend(st, b, c);
      }
    }
  }

  /** One step of the scanner keeps its state meaningful, and it stops only
      where the grammar rules out every continuation. */
  lemma StepCorrect(v: string, i: nat, st: Scanner)
    requires i < |v| && Scanned(v[..i], st)
    ensures Step(st, v[i]).None? ==> !IsSemVer(v)
    ensures Step(st, v[i]).Some? ==> Scanned(v[..i + 1], Step(st, v[i]).value)
  {
    var p, tail := v[..i], v[i..];
    assert v == p + tail;
    assert v[..i + 1] == p + [tail[0]];
    match st.section
    case Core =>
      if tail[0] in "-+" { CoreEnds(p, tail, st); } else { CoreContinues(p, tail, st); }
    case PreRelease =>
      if tail[0] == '+' { PreReleaseEnds(p, tail, st); } else { PreReleaseContinues(p, tail, st); }
    case Build =>
      BuildContinues(p, tail, st);
  }

  /** At the end of the text the scanner accepts exactly the versions. */
  lemma FinishCorrect(v: string, st: Scanner)
    requires Scanned(v, st)
    ensures SectionDone(st) <==> IsSemVer(v)
  {
    match st.section
    case Core =>
      assert CutAtFirst(v, '+').1.None? && CutAtFirst(v, '-').1.None?;
      SegmentDone(st, v);
    case PreRelease =>
      assert CutAtFirst(v, '+').1.None?;
      SegmentDone(st, CutAtFirst(v, '-').1.value);
    case Build =>
      SegmentDone(st, CutAtFirst(v, '+').1.value);
  }

  /** The scanner, started in a meaningful state, decides the grammar. */
  lemma {:induction false} RunCorrect(v: string, i: nat, st: Scanner)
    requires i <= |v| && Scanned(v[..i], st)
    ensures Run(v, i, st) <==> IsSemVer(v)
    decreases |v| - i
  {
    if i == |v| {
      assert v[..i] == v;
      FinishCorrect(v, st);
    } else {
      StepCorrect(v, i, st);
      match Step(st, v[i])
      case None =>
      case Some(next) => RunCorrect(v, i + 1, next);
    }
  }

  /** Started at the beginning of the text, the scanner decides the grammar. */
  lemma ScannerDecides(v: string)
    ensures Run(v, 0, Begin(Core)) <==> IsSemVer(v)
  {
    assert v[..0] == "";
    SegmentBegin(Core);
    RunCorrect(v, 0, Begin(Core));
  }

  // ---------------------------------------------------------------------
  // Examples
  // ---------------------------------------------------------------------

  /** The scanner's verdicts on a few version cores. */
  lemma ScanCores()
    ensures Run("1.0.0", 0, Begin(Core)) && Run("2.1.0", 0, Begin(Core))
    ensures !Run("1.0", 0, Begin(Core)) && !Run("01.0.0", 0, Begin(Core)) && !Run("", 0, Begin(Core))
  {
  }

  /** The scanner's verdicts on a few pre-releases. */
  lemma ScanPreReleaseAlpha()
    ensures Run("1.0.0-alpha.1", 0, Begin(Core))
  {
    assert Run("1.0.0-alpha.1", 12, Scanner(PreRelease, 1, 0, false, true));
    assert Run("1.0.0-alpha.1", 6, Scanner(PreRelease, 0, 0, false, true));
    assert Run("1.0.0-alpha.1", 4, Scanner(Core, 2, 0, false, true));
    assert Run("1.0.0-alpha.1", 2, Scanner(Core, 1, 0, false, true));
  }

  lemma ScanPreReleaseDigitsFirst()
    ensures Run("1.0.0-0a", 0, Begin(Core))
  {
    assert Run("1.0.0-0a", 6, Scanner(PreRelease, 0, 0, false, true));
    assert Run("1.0.0-0a", 4, Scanner(Core, 2, 0, false, true));
    assert Run("1.0.0-0a", 2, Scanner(Core, 1, 0, false, true));
  }

  lemma ScanPreReleaseRejects()
    ensures !Run("1.0.0-", 0, Begin(Core)) && !Run("1.0.0-01", 0, Begin(Core))
  {
  }

  /** The scanner's verdicts on a few build metadata sections. */
  lemma ScanBuildLeadingZero()
    ensures Run("1.0.0+build.05", 0, Begin(Core))
  {
    assert Run("1.0.0+build.05", 12, Scanner(Build, 1, 0, false, true));
    assert Run("1.0.0+build.05", 6, Scanner(Build, 0, 0, false, true));
    assert Run("1.0.0+build.05", 4, Scanner(Core, 2, 0, false, true));
    assert Run("1.0.0+build.05", 2, Scanner(Core, 1, 0, false, true));
  }

  lemma ScanBuildPlain()
    ensures Run("1.0.0+build.5", 0, Begin(Core))
  {
    assert Run("1.0.0+build.5", 12, Scanner(Build, 1, 0, false, true));
    assert Run("1.0.0+build.5", 6, Scanner(Build, 0, 0, false, true));
    assert Run("1.0.0+build.5", 4, Scanner(Core, 2, 0, false, true));
    assert Run("1.0.0+build.5", 2, Scanner(Core, 1, 0, false, true));
  }

  lemma ScanBuildRejects()
    ensures !Run("1.0.0+", 0, Begin(Core)) && !Run("bad-version", 0, Begin(Core))
  {
  }

  /** A version core has exactly three numbers without leading zeros. */
  lemma {:induction false} VersionCoreExamples()
    ensures IsSemVer("1.0.0") && IsSemVer("2.1.0")
    ensures !IsSemVer("1.0") && !IsSemVer("01.0.0") && !IsSemVer("")
  {
    ScanCores();
    ScannerDecides("1.0.0");
    ScannerDecides("2.1.0");
    ScannerDecides("1.0");
    ScannerDecides("01.0.0");
    ScannerDecides("");
  }

  /** A pre-release is non-empty; a numeric pre-release identifier has no
      leading zero, an alphanumeric one may start with digits. */
  lemma {:induction false} PreReleaseExamples()
    ensures IsSemVer("1.0.0-alpha.1") && IsSemVer("1.0.0-0a")
    ensures !IsSemVer("1.0.0-") && !IsSemVer("1.0.0-01")
  {
    ScanPreReleaseAlpha();
    ScanPreReleaseDigitsFirst();
    ScanPreReleaseRejects();
    ScannerDecides("1.0.0-alpha.1");
    ScannerDecides("1.0.0-0a");
    ScannerDecides("1.0.0-");
    ScannerDecides("1.0.0-01");
  }

  /** Build metadata is non-empty and its identifiers may have leading
      zeros; a name is not a version. */
  lemma {:induction false} BuildMetadataExamples()
    ensures IsSemVer("1.0.0+build.05") && IsSemVer("1.0.0+build.5")
    ensures !IsSemVer("1.0.0+") && !IsSemVer("bad-version")
  {
    ScanBuildLeadingZero();
    ScanBuildPlain();
    ScanBuildRejects();
    ScannerDecides("1.0.0+build.05");
    ScannerDecides("1.0.0+build.5");
    ScannerDecides("1.0.0+");
    ScannerDecides("bad-version");
  }

  /** The scanner stops at a line feed, whatever its state. */
  lemma {:induction false} RunStopsAtLineFeed(w: string, i: nat, st: Scanner, j: nat)
    requires i <= j < |w| && w[j] == '\n'
    ensures !Run(w, i, st)
    decreases j - i
  {
    if i < j {
      match Step(st, w[i])
      case None =>
      case Some(next) => RunStopsAtLineFeed(w, i + 1, next, j);
    }
  }

  /** No version holds a line feed. */
  lemma NoLineFeed(w: string, j: nat)
    requires j < |w| && w[j] == '\n'
    ensures !IsSemVer(w)
  {
    RunStopsAtLineFeed(w, 0, Begin(Core), j);
    ScannerDecides(w);
  }

  /** `$` lets exactly one final line feed follow a version. */
  lemma OneFinalLineFeed(v: string)
    ensures PatternMatches(v + "\n") <==> IsSemVer(v)
  {
    NoLineFeed(v + "\n", |v|);
    assert (v + "\n")[..|v|] == v;
  }

  /** A second final line feed is not matched. */
  lemma TwoFinalLineFeeds(v: string)
    ensures !PatternMatches(v + "\n\n")
  {
    var w := v + "\n\n";
    NoLineFeed(w, |v| + 1);
    NoLineFeed(w[..|w| - 1], |v|);
  }
}
