/**
 Versions of the command-line package (packages/cli/src/version.ts):
 how they are read, how they are ordered and which tag is taken.
 */
module Version {
  import opened Options
  import opened Text
  import opened Sorting

  // ---------------------------------------------------------------- reading a version

  datatype Part = Number(n: nat) | Word(s: string)

  datatype Parsed = Parsed(core: seq<nat>, pre: seq<Part>)

  /** What the expression `^(\d+)\.(\d+)\.(\d+)(?:-([0-9A-Za-z.-]+))?$` captures. */
  datatype Match = Match(major: string, minor: string, patch: string, pre: Option<string>)

  predicate DigitText(s: string) { s != [] && forall c :: c in s ==> IsDigit(c) }

  predicate PreChar(c: char) { IsDigit(c) || 'A' <= c <= 'Z' || 'a' <= c <= 'z' || c == '.' || c == '-' }

  predicate PreText(s: string) { s != [] && forall c :: c in s ==> PreChar(c) }

  predicate MatchOk(m: Match) {
    DigitText(m.major) && DigitText(m.minor) && DigitText(m.patch) && (m.pre.Some? ==> PreText(m.pre.value))
  }

  function Shown(m: Match): string {
    m.major + ("." + (m.minor + ("." + (m.patch + if m.pre.None? then "" else "-" + m.pre.value))))
  }

  /** How many digits a text starts with. */
  function Run(s: string): (n: nat)
    ensures n <= |s| && (forall i :: 0 <= i < n ==> IsDigit(s[i])) && (n < |s| ==> !IsDigit(s[n]))
  {
    if s == [] || !IsDigit(s[0]) then 0 else 1 + Run(s[1..])
  }

  function ScanTail(s: string): Option<(string, Option<string>)> {
    var n := Run(s);
    if n == 0 then None
    else if n == |s| then Some((s, None))
    else if s[n] == '-' && PreText(s[n + 1..]) then Some((s[..n], Some(s[n + 1..])))
    else None
  }

  /** A run of digits and a dot, and what follows them. */
  function ScanDotted(s: string): Option<(string, string)> {
    var n := Run(s);
    if n == 0 || n == |s| || s[n] != '.' then None else Some((s[..n], s[n + 1..]))
  }

  function Scan(s: string): Option<Match> {
    var a := ScanDotted(s);
    if a.None? then None else
    var b := ScanDotted(a.value.1);
    if b.None? then None else
    var c := ScanTail(b.value.1);
    if c.None? then None else Some(Match(a.value.0, b.value.0, c.value.0, c.value.1))
  }

  function ReadPart(text: string): Part { if DigitText(text) then Number(ValueOf(text)) else Word(text) }

  function ReadParts(texts: seq<string>): (r: seq<Part>)
    ensures |r| == |texts|
  {
    if texts == [] then [] else [ReadPart(texts[0])] + ReadParts(texts[1..])
  }

  function ParsedOf(m: Match): Parsed
    requires MatchOk(m)
  {
    Parsed([ValueOf(m.major), ValueOf(m.minor), ValueOf(m.patch)],
           if m.pre.None? then [] else ReadParts(Split(m.pre.value, '.')))
  }

  function ParseVersion(raw: string): (r: Option<Parsed>)
    ensures r.Some? ==> |r.value.core| == 3
  {
    var m := Scan(Trim(raw));
    if m.None? then None
    else
      assert MatchOk(m.value) by { ScanReads(Trim(raw)); }
      Some(ParsedOf(m.value))
  }

  lemma ScanReads(s: string)
    requires Scan(s).Some?
    ensures MatchOk(Scan(s).value) && Shown(Scan(s).value) == s
  {
    DottedReads(s);
    var rest := ScanDotted(s).value.1;
    DottedReads(rest);
    TailReads(ScanDotted(rest).value.1);
  }

  lemma DottedReads(s: string)
    requires ScanDotted(s).Some?
    ensures DigitText(ScanDotted(s).value.0) && s == ScanDotted(s).value.0 + ("." + ScanDotted(s).value.1)
  {
    var n := Run(s);
    assert s == s[..n] + ([s[n]] + s[n + 1..]);
  }

  lemma TailReads(s: string)
    requires ScanTail(s).Some?
    ensures var t := ScanTail(s).value;
            DigitText(t.0) && (t.1.Some? ==> PreText(t.1.value)) && s == t.0 + if t.1.None? then "" else "-" + t.1.value
  {
    var n := Run(s);
    if n < |s| {
      assert s == s[..n] + ([s[n]] + s[n + 1..]);
    }
  }

  lemma {:induction false} RunIs(digits: string, rest: string)
    requires (forall c :: c in digits ==> IsDigit(c)) && (rest == [] || !IsDigit(rest[0]))
    ensures Run(digits + rest) == |digits|
  {
    if digits == [] {
      assert digits + rest == rest;
    } else {
      assert (digits + rest)[1..] == digits[1..] + rest;
      RunIs(digits[1..], rest);
    }
  }

  lemma DottedScans(digits: string, rest: string)
    requires DigitText(digits)
    ensures ScanDotted(digits + ("." + rest)) == Some((digits, rest))
  {
    RunIs(digits, "." + rest);
    var s := digits + ("." + rest);
    assert s[..|digits|] == digits && s[|digits| + 1..] == rest;
  }

  /** Reading captures exactly the ways the text is written as the expression says, and there is at most one. */
  lemma ScansExactly(s: string, m: Match)
    ensures Scan(s) == Some(m) <==> MatchOk(m) && Shown(m) == s
  {
    if Scan(s).Some? { ScanReads(s); }
    if MatchOk(m) && Shown(m) == s {
      var tail := if m.pre.None? then "" else "-" + m.pre.value;
      DottedScans(m.major, m.minor + ("." + (m.patch + tail)));
      DottedScans(m.minor, m.patch + tail);
      TailScans(m.patch, m.pre);
    }
  }

  lemma TailScans(patch: string, pre: Option<string>)
    requires DigitText(patch) && (pre.Some? ==> PreText(pre.value))
    ensures ScanTail(patch + if pre.None? then "" else "-" + pre.value) == Some((patch, pre))
  {
    var s := patch + if pre.None? then "" else "-" + pre.value;
    RunIs(patch, if pre.None? then "" else "-" + pre.value);
    if pre.None? {
      assert s == patch;
    } else {
      assert s[..|patch|] == patch && s[|patch| + 1..] == pre.value;
    }
  }

  // ---------------------------------------------------------------- writing a version

  /** A word is not a number and is made of identifier characters without dots. */
  predicate PartOk(p: Part) {
    p.Word? ==> !DigitText(p.s) && p.s != [] && forall c :: c in p.s ==> PreChar(c) && c != '.'
  }

  predicate ParsedOk(v: Parsed) { |v.core| == 3 && forall p :: p in v.pre ==> PartOk(p) }

  function PartText(p: Part): string { if p.Number? then Digits(p.n) else p.s }

  function PartTexts(pre: seq<Part>): (r: seq<string>)
    ensures |r| == |pre| && forall i :: 0 <= i < |r| ==> r[i] == PartText(pre[i])
  {
    if pre == [] then [] else [PartText(pre[0])] + PartTexts(pre[1..])
  }

  /** The version as a match of its own text: numbers in decimal, identifiers joined by dots. */
  function MatchOf(v: Parsed): Match
    requires ParsedOk(v)
  {
    Match(Digits(v.core[0]), Digits(v.core[1]), Digits(v.core[2]), if v.pre == [] then None
        else Some(Join(PartTexts(v.pre), '.')))
  }

  function VersionText(v: Parsed): string
    requires ParsedOk(v)
  {
    Shown(MatchOf(v))
  }

  lemma PartReads(p: Part)
    requires PartOk(p)
    ensures ReadPart(PartText(p)) == p
    ensures PartText(p) != [] && forall c :: c in PartText(p) ==> PreChar(c) && c != '.'
  {
    if p.Number? { DigitsValue(p.n); }
  }

  lemma {:induction false} PartsRead(pre: seq<Part>)
    requires forall p :: p in pre ==> PartOk(p)
    ensures ReadParts(PartTexts(pre)) == pre
  {
    hide PartOk, ReadPart, PartText;
    if pre != [] {
      PartReads(pre[0]);
      PartsRead(pre[1..]);
      assert PartTexts(pre)[1..] == PartTexts(pre[1..]);
    }
  }

  lemma {:induction false} JoinedPreText(texts: seq<string>)
    requires texts != [] && forall i :: 0 <= i < |texts| ==> PreText(texts[i])
    ensures PreText(Join(texts, '.'))
  {
    if |texts| > 1 { JoinedPreText(texts[1..]); }
  }

  lemma MatchOfOk(v: Parsed)
    requires ParsedOk(v)
    ensures MatchOk(MatchOf(v)) && ParsedOf(MatchOf(v)) == v
  {
    DigitsValue(v.core[0]);
    DigitsValue(v.core[1]);
    DigitsValue(v.core[2]);
    assert v.core == [v.core[0], v.core[1], v.core[2]];
    if v.pre != [] {
      var texts := PartTexts(v.pre);
      forall i | 0 <= i < |texts| ensures PreText(texts[i]) && '.' !in texts[i] { PartReads(v.pre[i]); }
      JoinedPreText(texts);
      SplitJoin(texts, '.');
      PartsRead(v.pre);
    }
  }

  /**
   A text parses exactly when, without the white space around it, it is written as the expression says, and to what
   that says.
   */
  lemma ParsesExactly(raw: string)
    ensures forall m :: MatchOk(m) && Shown(m) == Trim(raw) ==> ParseVersion(raw) == Some(ParsedOf(m))
    ensures ParseVersion(raw).Some? ==> exists m :: MatchOk(m) && Shown(m) == Trim(raw)
  {
    hide ParsedOf, MatchOk, Shown, Scan;
    forall m | MatchOk(m) && Shown(m) == Trim(raw) ensures ParseVersion(raw) == Some(ParsedOf(m)) {
      ScansExactly(Trim(raw), m);
    }
    if ParseVersion(raw).Some? { ScanReads(Trim(raw)); }
  }

  /** Every version reads back from its text, so the text of a version decides its precedence. */
  lemma VersionReadsBack(v: Parsed)
    requires ParsedOk(v)
    ensures ParseVersion(VersionText(v)) == Some(v)
  {
    MatchOfOk(v);
    hide MatchOf, ParsedOf, ParsedOk;
    ScansExactly(VersionText(v), MatchOf(v));
    ShownIsTrim(MatchOf(v));
  }

  lemma EndsOf(m: Match)
    requires MatchOk(m)
    ensures var s := Shown(m); s != [] && !Space(s[0]) && !Space(s[|s| - 1])
  {
    var s := Shown(m);
    assert s[0] == m.major[0] && m.major[0] in m.major;
    var last := if m.pre.None? then m.patch else m.pre.value;
    LastOfShown(m);
    assert last[|last| - 1] in last;
  }

  lemma LastOfShown(m: Match)
    requires MatchOk(m)
    ensures var s := Shown(m); var last := if m.pre.None? then m.patch else m.pre.value;
        s != [] && s[|s| - 1] == last[|last| - 1]
  {
    var tail := m.patch + if m.pre.None? then "" else "-" + m.pre.value;
    var last := if m.pre.None? then m.patch else m.pre.value;
    assert tail[|tail| - 1] == last[|last| - 1];
    EndOfSum(m.minor + ".", tail);
    assert m.minor + ("." + tail) == m.minor + "." + tail;
    EndOfSum(m.major + ".", m.minor + ("." + tail));
    assert m.major + ("." + (m.minor + ("." + tail))) == m.major + "." + (m.minor + ("." + tail));
  }

  lemma EndOfSum(a: string, b: string)
    requires b != []
    ensures a + b != [] && (a + b)[|a + b| - 1] == b[|b| - 1]
  {
  }

  /** A match has nothing to trim. */
  lemma ShownIsTrim(m: Match)
    requires MatchOk(m)
    ensures Trim(Shown(m)) == Shown(m)
  {
    EndsOf(m);
    hide Shown;
  }

  // ---------------------------------------------------------------- the order of section 11 of Semantic Versioning
  // 2.0.0

  /** The two agree up to `i`, where `a` ends or has the smaller element. */
  predicate FirstAt<T(==)>(lt: (T, T) -> bool, a: seq<T>, b: seq<T>, i: nat) {
    i <= |a| && i < |b| && a[..i] == b[..i] && (i == |a| || lt(a[i], b[i]))
  }

  /** Compared from left to right: the first difference decides, and a proper prefix comes first. */
  ghost predicate Precedes<T>(lt: (T, T) -> bool, a: seq<T>, b: seq<T>) {
    exists i: nat :: FirstAt(lt, a, b, i)
  }

  predicate NatLower(x: nat, y: nat) { x < y }

  predicate CharLower(x: char, y: char) { x < y }

  /** Identifiers: numbers by value, words in the order of their characters, numbers below words. */
  ghost predicate PartLower(x: Part, y: Part) {
    match (x, y)
    case (Number(n), Number(m)) => n < m
    case (Number(_), Word(_)) => true
    case (Word(_), Number(_)) => false
    case (Word(s), Word(t)) => Precedes(CharLower, s, t)
  }

  /** A prerelease is below its release; two prereleases compare identifier by identifier. */
  ghost predicate PreLower(a: seq<Part>, b: seq<Part>) {
    a != [] && (b == [] || Precedes(PartLower, a, b))
  }

  ghost predicate Lower(a: Parsed, b: Parsed) {
    Precedes(NatLower, a.core, b.core) || (a.core == b.core && PreLower(a.pre, b.pre))
  }

  ghost predicate StrictTotal<T(!new)>(lt: (T, T) -> bool) {
    StrictOrder(lt) && forall x, y :: x == y || lt(x, y) || lt(y, x)
  }

  /** Where two sequences first differ decides between them, both ways. */
  lemma DecidedAt<T(!new)>(lt: (T, T) -> bool, a: seq<T>, b: seq<T>, i: nat)
    requires StrictOrder(lt)
    requires i <= |a| && i <= |b| && a[..i] == b[..i]
    requires i < |a| || i < |b|
    requires i < |a| && i < |b| ==> a[i] != b[i]
    ensures Precedes(lt, a, b) <==> i < |b| && (i == |a| || lt(a[i], b[i]))
  {
    if Precedes(lt, a, b) {
      var k: nat :| FirstAt(lt, a, b, k);
      assert forall j :: 0 <= j < k ==> a[j] == a[..k][j] == b[j];
      assert forall j :: 0 <= j < i ==> a[j] == a[..i][j] == b[j];
    }
    if i < |b| && (i == |a| || lt(a[i], b[i])) {
      assert FirstAt(lt, a, b, i);
    }
  }

  function FirstDifference<T(==)>(a: seq<T>, b: seq<T>): (i: nat)
    ensures i <= |a| && i <= |b| && a[..i] == b[..i]
    ensures i < |a| && i < |b| ==> a[i] != b[i]
  {
    if a == [] || b == [] || a[0] != b[0] then 0
    else
      var i := 1 + FirstDifference(a[1..], b[1..]);
      assert a[..i] == [a[0]] + a[1..][..i - 1] && b[..i] == [b[0]] + b[1..][..i - 1];
      i
  }

  lemma PrecedesTotal<T(!new)>(lt: (T, T) -> bool, a: seq<T>, b: seq<T>)
    requires StrictTotal(lt)
    ensures a == b || Precedes(lt, a, b) || Precedes(lt, b, a)
    ensures !(Precedes(lt, a, b) && Precedes(lt, b, a)) && !Precedes(lt, a, a)
  {
    var i := FirstDifference(a, b);
    if i == |a| == |b| {
      assert a == a[..i] && b == b[..i];
    } else {
      DecidedAt(lt, a, b, i);
      DecidedAt(lt, b, a, i);
    }
    PrecedesIrreflexive(lt, a);
  }

  lemma PrecedesIrreflexive<T(!new)>(lt: (T, T) -> bool, a: seq<T>)
    requires StrictOrder(lt)
    ensures !Precedes(lt, a, a)
  {
  }

  lemma PrecedesTransitive<T(!new)>(lt: (T, T) -> bool, a: seq<T>, b: seq<T>, c: seq<T>)
    requires StrictOrder(lt) && Precedes(lt, a, b) && Precedes(lt, b, c)
    ensures Precedes(lt, a, c)
  {
    var i: nat :| FirstAt(lt, a, b, i);
    var k: nat :| FirstAt(lt, b, c, k);
    var m := if i < k then i else k;
    assert a[..m] == a[..i][..m] && b[..m] == b[..i][..m] && b[..m] == b[..k][..m] && c[..m] == c[..k][..m];
    if i < k {
      assert b[i] == b[..k][i] == c[..k][i] == c[i];
    }
    if k < i {
      assert a[k] == a[..i][k] == b[..i][k] == b[k];
    }
    assert FirstAt(lt, a, c, m);
  }

  lemma SequencesOrdered<T(!new)>(lt: (T, T) -> bool)
    requires StrictTotal(lt)
    ensures StrictTotal((a: seq<T>, b: seq<T>) => Precedes(lt, a, b))
  {
    forall a: seq<T>, b: seq<T> ensures a == b || Precedes(lt, a, b) || Precedes(lt, b, a) { PrecedesTotal(lt, a, b); }
    forall a: seq<T> ensures !Precedes(lt, a, a) { PrecedesIrreflexive(lt, a); }
    forall a: seq<T>, b: seq<T>, c: seq<T> | Precedes(lt, a, b) && Precedes(lt, b, c) ensures Precedes(lt, a, c) {
      PrecedesTransitive(lt, a, b, c);
    }
  }

  /** The order of words the source uses, `<` on strings, is the order by first difference. */
  lemma {:induction false} LessIsPrecedes(s: string, t: string)
    ensures Less(s, t) <==> Precedes(CharLower, s, t)
  {
    if s == [] || t == [] || s[0] != t[0] {
      if s != [] || t != [] { DecidedAt(CharLower, s, t, 0); }
    } else {
      LessIsPrecedes(s[1..], t[1..]);
      var i := FirstDifference(s[1..], t[1..]);
      assert s[..i + 1] == [s[0]] + s[1..][..i] && t[..i + 1] == [t[0]] + t[1..][..i];
      if i < |s[1..]| || i < |t[1..]| {
        DecidedAt(CharLower, s[1..], t[1..], i);
        DecidedAt(CharLower, s, t, i + 1);
      } else {
        assert s == s[..i + 1] && t == t[..i + 1];
        PrecedesIrreflexive(CharLower, s);
        PrecedesIrreflexive(CharLower, s[1..]);
      }
    }
  }

  lemma PartsOrdered()
    ensures StrictTotal(PartLower)
  {
    forall s: string, t: string ensures Precedes(CharLower, s, t) <==> Less(s, t) { LessIsPrecedes(s, t); }
    hide Precedes, Less;
    forall s: string ensures !Less(s, s) { LessIrreflexive(s); }
    forall s: string, t: string ensures s == t || Less(s, t) || Less(t, s) { LessTotal(s, t); }
    forall s: string, t: string, u: string | Less(s, t) && Less(t, u) ensures Less(s, u) { LessTransitive(s, t, u); }
    assert forall x, y :: x == y || PartLower(x, y) || PartLower(y, x);
    assert forall x, y, z :: PartLower(x, y) && PartLower(y, z) ==> PartLower(x, z);
  }

  lemma PresOrdered()
    ensures StrictTotal(PreLower)
  {
    PartsOrdered();
    hide PartLower;
    forall a, b ensures a == b || PreLower(a, b) || PreLower(b, a) { PrecedesTotal(PartLower, a, b); }
    forall a ensures !PreLower(a, a) { PrecedesIrreflexive(PartLower, a); }
    forall a, b, c | PreLower(a, b) && PreLower(b, c) ensures PreLower(a, c) {
      if c != [] { PrecedesTransitive(PartLower, a, b, c); }
    }
  }

  lemma CoresOrdered()
    ensures StrictTotal((a: seq<nat>, b: seq<nat>) => Precedes(NatLower, a, b))
  {
    SequencesOrdered(NatLower);
  }

  /** Precedence is a strict total order on what versions say. */
  lemma VersionsOrdered()
    ensures StrictTotal(Lower)
  {
    PresOrdered();
    CoresOrdered();
    hide PreLower, Precedes;
    var core := (a: seq<nat>, b: seq<nat>) => Precedes(NatLower, a, b);
    forall a, b ensures a == b || Lower(a, b) || Lower(b, a) {
      assert a.core == b.core || core(a.core, b.core) || core(b.core, a.core);
    }
    forall a ensures !Lower(a, a) { assert !core(a.core, a.core); }
    forall a, b, c | Lower(a, b) && Lower(b, c) ensures Lower(a, c) {
      assert core(a.core, b.core) && core(b.core, c.core) ==> core(a.core, c.core);
    }
  }

  /** Which of two identifiers is lower, with every comparison written out. */
  ghost predicate LowerIdentifier(x: Part, y: Part) {
    || (x.Number? && y.Number? && x.n < y.n)
    || (x.Number? && y.Word?)
    || (x.Word? && y.Word? && exists i: nat ::
        i <= |x.s| && i < |y.s| && x.s[..i] == y.s[..i] && (i == |x.s| || x.s[i] < y.s[i]))
  }

  /**
   Major, minor and patch decide first; then a prerelease is below its release, and of two prereleases the
   first identifier that differs decides, or the shorter one is lower.
   */
  lemma PrecedenceSpelled(a: Parsed, b: Parsed)
    requires |a.core| == 3 && |b.core| == 3
    ensures Lower(a, b) <==>
            || a.core[0] < b.core[0]
            || (a.core[0] == b.core[0] && a.core[1] < b.core[1])
            || (a.core[..2] == b.core[..2] && a.core[2] < b.core[2])
            || (a.core == b.core && a.pre != [] && (b.pre == [] || exists i: nat ::
                i <= |a.pre| && i < |b.pre| && a.pre[..i] == b.pre[..i]
                && (i == |a.pre| || LowerIdentifier(a.pre[i], b.pre[i]))))
  {
    CoreSpelled(a.core, b.core);
    PreSpelled(a.pre, b.pre);
    hide Precedes, PartLower, LowerIdentifier;
  }

  lemma CoreSpelled(a: seq<nat>, b: seq<nat>)
    requires |a| == 3 && |b| == 3
    ensures Precedes(NatLower, a, b) <==>
            a[0] < b[0] || (a[0] == b[0] && a[1] < b[1]) || (a[..2] == b[..2] && a[2] < b[2])
  {
    var i := FirstDifference(a, b);
    if i == 3 {
      assert a == a[..3] && b == b[..3];
      PrecedesIrreflexive(NatLower, a);
    } else {
      DecidedAt(NatLower, a, b, i);
      assert forall j :: 0 <= j < i ==> a[j] == a[..i][j] == b[j];
    }
  }

  lemma PreSpelled(a: seq<Part>, b: seq<Part>)
    ensures Precedes(PartLower, a, b) <==> exists i: nat ::
                i <= |a| && i < |b| && a[..i] == b[..i] && (i == |a| || LowerIdentifier(a[i], b[i]))
  {
    forall x, y ensures PartLower(x, y) <==> LowerIdentifier(x, y) { IdentifierSpelled(x, y); }
    hide PartLower, LowerIdentifier;
    if Precedes(PartLower, a, b) {
      var i: nat :| FirstAt(PartLower, a, b, i);
      assert a[..i] == b[..i];
    }
    if i: nat :| i <= |a| && i < |b| && a[..i] == b[..i] && (i == |a| || LowerIdentifier(a[i], b[i])) {
      assert FirstAt(PartLower, a, b, i);
    }
  }

  lemma IdentifierSpelled(x: Part, y: Part)
    ensures PartLower(x, y) <==> LowerIdentifier(x, y)
  {
    if x.Word? && y.Word? {
      if PartLower(x, y) {
        var i: nat :| FirstAt(CharLower, x.s, y.s, i);
        assert x.s[..i] == y.s[..i];
      }
      if i: nat :| i <= |x.s| && i < |y.s| && x.s[..i] == y.s[..i] && (i == |x.s| || x.s[i] < y.s[i]) {
        assert FirstAt(CharLower, x.s, y.s, i);
      }
    }
  }

  // ---------------------------------------------------------------- comparing

  /** -1, 0 or 1 as the first is lower, the two are one, or the second is lower. */
  ghost function Sign(lower: bool, higher: bool): int { if lower then -1 else if higher then 1 else 0 }

  /** The comparison by precedence; a text that is no version compares as equal to everything. */
  ghost function Compare(a: string, b: string): int {
    var x, y := ParseVersion(a), ParseVersion(b);
    if x.None? || y.None? then 0 else Sign(Lower(x.value, y.value), Lower(y.value, x.value))
  }

  function PartAt(parts: seq<Part>, i: nat): Option<Part> { if i < |parts| then Some(parts[i]) else None }

  /** `comparePart`, branch by branch; `None` is an identifier past the end. */
  function ComparePart(left: Option<Part>, right: Option<Part>): int {
    if left.None? then -1
    else if right.None? then 1
    else if left == right then 0
    else if left.value.Number? && right.value.Number? then (if left.value.n < right.value.n then -1 else 1)
    else if left.value.Number? then -1
    else if right.value.Number? then 1
    else if Less(left.value.s, right.value.s) then -1 else 1
  }

  lemma ComparePartIs(left: Part, right: Part)
    ensures ComparePart(Some(left), Some(right)) == Sign(PartLower(left, right), PartLower(right, left))
  {
    PartsOrdered();
    if left.Word? && right.Word? {
      LessIsPrecedes(left.s, right.s);
    }
  }

  /** `comparePre` is the order of prereleases. */
  method ComparePre(a: seq<Part>, b: seq<Part>) returns (cmp: int)
    ensures cmp == Sign(PreLower(a, b), PreLower(b, a))
  {
    hide PartLower, ComparePart, Precedes;
    PresOrdered();
    if |a| == 0 && |b| == 0 { return 0; }
    if |a| == 0 { return 1; }
    if |b| == 0 { return -1; }
    PartsOrdered();
    var longest := if |a| < |b| then |b| else |a|;
    for i := 0 to longest
      invariant i <= |a| && i <= |b| && a[..i] == b[..i]
    {
      cmp := ComparePart(PartAt(a, i), PartAt(b, i));
      PrefixDecides(a, b, i);
      if cmp != 0 {
        return;
      }
    }
    assert a == a[..longest] && b == b[..longest];
    cmp := 0;
  }

  lemma PrefixDecides(a: seq<Part>, b: seq<Part>, i: nat)
    requires i <= |a| && i <= |b| && a[..i] == b[..i] && (i < |a| || i < |b|)
    ensures var cmp := ComparePart(PartAt(a, i), PartAt(b, i));
            if cmp == 0 then i < |a| && i < |b| && a[i] == b[i]
            else cmp == Sign(Precedes(PartLower, a, b), Precedes(PartLower, b, a))
  {
    PartsOrdered();
    if i < |a| && i < |b| { ComparePartIs(a[i], b[i]); }
    hide PartLower, Precedes;
    if i == |a| || i == |b| || a[i] != b[i] {
      DecidedAt(PartLower, a, b, i);
      DecidedAt(PartLower, b, a, i);
    }
  }

  /** `compareVersions` is precedence. */
  method CompareVersions(a: string, b: string) returns (cmp: int)
    ensures cmp == Compare(a, b) && -1 <= cmp <= 1
    ensures ParseVersion(a).None? || ParseVersion(b).None? ==> cmp == 0
    ensures ParseVersion(a).Some? && ParseVersion(b).Some? ==>
              && (cmp == -1 <==> Lower(ParseVersion(a).value, ParseVersion(b).value))
              && (cmp == 1 <==> Lower(ParseVersion(b).value, ParseVersion(a).value))
  {
    VersionsOrdered();
    hide ParseVersion, PreLower, Precedes;
    var left, right := ParseVersion(a), ParseVersion(b);
    if left.None? || right.None? { return 0; }
    var x, y := left.value.core, right.value.core;
    PrecedesIrreflexive(NatLower, x);
    for i := 0 to 3
      invariant x[..i] == y[..i]
    {
      if x[i] != y[i] {
        DecidedAt(NatLower, x, y, i);
        DecidedAt(NatLower, y, x, i);
        return if x[i] < y[i] then -1 else 1;
      }
      assert x[..i + 1] == x[..i] + [x[i]] && y[..i + 1] == y[..i] + [y[i]];
    }
    assert x == x[..3] && y == y[..3];
    cmp := ComparePre(left.value.pre, right.value.pre);
  }

  /** On texts that are versions the comparison is a total preorder, and 0 only for versions that say the same. */
  lemma CompareIsATotalPreorder(a: string, b: string, c: string)
    requires ParseVersion(a).Some? && ParseVersion(b).Some? && ParseVersion(c).Some?
    ensures Compare(a, b) == -Compare(b, a)
    ensures Compare(a, b) == 0 <==> ParseVersion(a) == ParseVersion(b)
    ensures Compare(a, b) <= 0 && Compare(b, c) <= 0 ==>
              Compare(a, c) <= 0 && (Compare(a, c) == 0 <==> Compare(a, b) == 0 && Compare(b, c) == 0)
  {
    VersionsOrdered();
    hide ParseVersion, Lower;
  }

  ghost predicate TransitiveOn(texts: set<string>) {
    forall a, b, c :: a in texts && b in texts && c in texts && Compare(a, b) <= 0 && Compare(b, c) <= 0 ==>
        Compare(a, c) <= 0
  }

  /**
   A text that is no version is level with everything, so among any texts the comparison is an
   order exactly when all of them are versions or all versions among them say the same.
   */
  lemma TransitiveExactlyWhen(texts: set<string>)
    ensures TransitiveOn(texts) <==>
              || (forall t :: t in texts ==> ParseVersion(t).Some?)
              || (forall a, b :: a in texts && b in texts && ParseVersion(a).Some? && ParseVersion(b).Some? ==>
                    ParseVersion(a) == ParseVersion(b))
  {
    hide ParseVersion, Lower;
    if junk :| junk in texts && ParseVersion(junk).None? {
      if TransitiveOn(texts) {
        forall a, b | a in texts && b in texts && ParseVersion(a).Some? && ParseVersion(b).Some?
          ensures ParseVersion(a) == ParseVersion(b)
        {
          assert Compare(a, junk) == 0 && Compare(junk, b) == 0 && Compare(b, junk) == 0 && Compare(junk, a) == 0;
          assert Compare(a, b) <= 0 && Compare(b, a) <= 0;
          CompareIsATotalPreorder(a, b, a);
        }
      }
    }
    forall a, b, c | a in texts && b in texts && c in texts && Compare(a, b) <= 0 && Compare(b, c) <= 0
      ensures (forall t :: t in texts ==> ParseVersion(t).Some?) ==> Compare(a, c) <= 0
    {
      if ParseVersion(a).Some? && ParseVersion(b).Some? && ParseVersion(c).Some? { CompareIsATotalPreorder(a, b, c); }
    }
    forall a, c | a in texts && c in texts && ParseVersion(a) == ParseVersion(c) ensures Compare(a, c) == 0 {
      if ParseVersion(a).Some? { CompareIsATotalPreorder(a, a, c); }
    }
  }

  /** Such texts: a version, a text that is none, and a lower version. */
  lemma TransitivityFails()
    ensures Compare("2.0.0", "x") == 0 && Compare("x", "1.0.0") == 0 && Compare("2.0.0", "1.0.0") == 1
    ensures !TransitiveOn({"2.0.0", "x", "1.0.0"})
  {
    hide ParseVersion, Lower;
    WitnessesParse();
    WitnessesOrdered();
    assert "2.0.0" in {"2.0.0", "x", "1.0.0"} && "x" in {"2.0.0", "x", "1.0.0"} && "1.0.0" in {"2.0.0", "x", "1.0.0"};
  }

  lemma WitnessesOrdered()
    ensures var two, one := Parsed([2, 0, 0], []), Parsed([1, 0, 0], []); Lower(one, two) && !Lower(two, one)
  {
    var two, one := Parsed([2, 0, 0], []), Parsed([1, 0, 0], []);
    assert FirstAt(NatLower, one.core, two.core, 0);
    VersionsOrdered();
    hide PreLower;
    assert Lower(one, two);
    hide Lower;
  }

  lemma WitnessesParse()
    ensures ParseVersion("2.0.0") == Some(Parsed([2, 0, 0], [])) && ParseVersion("1.0.0") == Some(Parsed([1, 0, 0], []))
    ensures ParseVersion("x").None?
  {
    var two, one := Parsed([2, 0, 0], []), Parsed([1, 0, 0], []);
    PlainTexts();
    VersionReadsBack(two);
    VersionReadsBack(one);
    WordIsNoVersion();
    hide ParseVersion, VersionText;
  }

  lemma WordIsNoVersion()
    ensures ParseVersion("x").None?
  {
    assert Trim("x") == "x" && Run("x") == 0;
  }

  lemma PlainTexts()
    ensures VersionText(Parsed([2, 0, 0], [])) == "2.0.0" && VersionText(Parsed([1, 0, 0], [])) == "1.0.0"
  {
    assert Digits(2) == "2" && Digits(1) == "1" && Digits(0) == "0";
  }

  // ---------------------------------------------------------------- the tag that is taken

  /** The value of a tag: `None` when it is not a string. */
  type Tag = Option<string>

  predicate Readable(tag: Tag) { tag.Some? && ParseVersion(tag.value).Some? }

  /** `newestOf`: the first of the highest versions among the tags, or nothing when no tag is a version. */
  method NewestOf(tags: seq<Tag>) returns (best: string)
    ensures best == "" <==> forall t :: t in tags ==> !Readable(t)
    ensures best != "" ==> exists k :: 0 <= k < |tags| && tags[k] == Some(best) && Readable(tags[k])
                             && (forall i :: 0 <= i < |tags| && Readable(tags[i]) ==> Compare(tags[i].value, best) <= 0)
                             && (forall i :: 0 <= i < k && Readable(tags[i]) ==> Compare(tags[i].value, best) < 0)
  {
    hide ParseVersion, Compare;
    EmptyIsNoVersion();
    best := "";
    ghost var k := 0;
    for n := 0 to |tags|
      invariant best == "" ==> forall i :: 0 <= i < n ==> !Readable(tags[i])
      invariant best != "" ==> 0 <= k < n && tags[k] == Some(best) && Readable(tags[k])
      invariant best != "" ==> forall i :: 0 <= i < n && Readable(tags[i]) ==> Compare(tags[i].value, best) <= 0
      invariant best != "" ==> forall i :: 0 <= i < k && Readable(tags[i]) ==> Compare(tags[i].value, best) < 0
    {
      var tag := tags[n];
      if tag.None? || ParseVersion(tag.value).None? { continue; }
      var take := best == "";
      if !take {
        var cmp := CompareVersions(tag.value, best);
        take := cmp > 0;
      }
      if take {
        Overtakes(tags[..n], best, tag.value);
        best, k := tag.value, n;
      }
    }
  }

  lemma EmptyIsNoVersion()
    ensures ParseVersion("").None?
  {
  }

  /** What is above the best so far is above everything before it. */
  lemma Overtakes(before: seq<Tag>, best: string, value: string)
    requires ParseVersion(value).Some?
    requires if best == "" then forall i :: 0 <= i < |before| ==> !Readable(before[i])
             else ParseVersion(best).Some? && Compare(value, best) > 0
                  && forall i :: 0 <= i < |before| && Readable(before[i]) ==> Compare(before[i].value, best) <= 0
    ensures Compare(value, value) == 0
    ensures forall i :: 0 <= i < |before| && Readable(before[i]) ==> Compare(before[i].value, value) < 0
  {
    CompareIsATotalPreorder(value, value, value);
    hide ParseVersion, Compare;
    forall i | 0 <= i < |before| && Readable(before[i]) ensures Compare(before[i].value, value) < 0 {
      CompareIsATotalPreorder(before[i].value, best, value);
      CompareIsATotalPreorder(value, best, value);
    }
  }
}
