/**
 Canonical JSON (apps/mcp/src/digest.ts): object members are sorted at every depth, and the
 text decides whether two argument records are the same call.
 */
module Digest {
  import opened Text

  /**
   A JSON value. A number is the text JavaScript prints for it; objects keep their members in
   source order.
   */
  datatype Json =
    | Null | Bool(value: bool) | Number(text: string)
    | Str(text: string) | Array(items: Items) | Object(members: Members)
  datatype Items = End | Item(head: Json, rest: Items)
  datatype Members = Empty | Member(name: string, value: Json, rest: Members)

  predicate NumberChar(c: char) { IsDigit(c) || c in "-+.e" }

  predicate NumberText(s: string) {
    s != [] && (IsDigit(s[0]) || s[0] == '-') && forall c :: c in s ==> NumberChar(c)
  }

  predicate HasName(ms: Members, name: string) {
    ms.Member? && (ms.name == name || HasName(ms.rest, name))
  }

  /** Numbers print as numbers and no object repeats a name. */
  predicate Wellformed(v: Json) {
    match v
    case Number(text) => NumberText(text)
    case Array(items) => WellformedItems(items)
    case Object(members) => WellformedMembers(members)
    case _ => true
  }

  predicate WellformedItems(items: Items) {
    items.Item? ==> Wellformed(items.head) && WellformedItems(items.rest)
  }

  predicate WellformedMembers(ms: Members) {
    ms.Member? ==> Wellformed(ms.value) && !HasName(ms.rest, ms.name) && WellformedMembers(ms.rest)
  }

  /** Null, booleans and strings are values as they are; a number is text of the characters JavaScript prints. */
  lemma SimpleValues(value: bool, text: string)
    ensures Wellformed(Null) && Wellformed(Bool(value)) && Wellformed(Str(text))
    ensures Wellformed(Number(text)) <==>
              && text != "" && ('0' <= text[0] <= '9' || text[0] == '-')
              && forall c :: c in text ==> '0' <= c <= '9' || c in {'-', '+', '.', 'e'}
  {}

  // ------------------------------------------------------------------ the code

  /** A name JavaScript treats as an array index; such members come first, in numeric order. */
  predicate IsIndex(name: string) {
    0 <= ValueOf(name) < 0xFFFF_FFFF && Digits(ValueOf(name)) == name
  }

  /** The order an object built from sorted entries prints in. */
  predicate Before(a: string, b: string) {
    if IsIndex(a) then !IsIndex(b) || ValueOf(a) < ValueOf(b) else !IsIndex(b) && Less(a, b)
  }

  /** Names that are array indices come first and by number; the others follow by their text. */
  lemma BeforeSpelled(a: string, b: string, m: nat, n: nat)
    ensures a == Digits(m) && b == Digits(n) && m < 4294967295 && n < 4294967295 ==> (Before(a, b) <==> m < n)
    ensures a == Digits(m) && m < 4294967295 && (forall k: nat :: k < 4294967295 ==> b != Digits(k)) ==>
              Before(a, b) && !Before(b, a)
    ensures (forall k: nat :: k < 4294967295 ==> a != Digits(k) && b != Digits(k)) ==> (Before(a, b) <==> Less(a, b))
  {
    DigitsValue(m);
    DigitsValue(n);
  }

  function Insert(name: string, value: Json, ms: Members): Members {
    if ms.Empty? || Before(name, ms.name) then Member(name, value, ms)
    else Member(ms.name, ms.value, Insert(name, value, ms.rest))
  }

  function Canonical(v: Json): Json {
    match v
    case Array(items) => Array(CanonicalItems(items))
    case Object(members) => Object(CanonicalMembers(members))
    case _ => v
  }

  function CanonicalItems(items: Items): Items {
    if items.End? then End else Item(Canonical(items.head), CanonicalItems(items.rest))
  }

  function CanonicalMembers(ms: Members): Members {
    if ms.Empty? then Empty else Insert(ms.name, Canonical(ms.value), CanonicalMembers(ms.rest))
  }

  function Hex(d: nat): char
    requires d < 16
  {
    "0123456789abcdef"[d]
  }

  function EscapeChar(c: char): (s: string)
    ensures s != [] && s[0] != '"'
  {
    if c == '"' then "\\\""
    else if c == '\\' then "\\\\"
    else if c == '\n' then "\\n"
    else if c == '\r' then "\\r"
    else if c == '\t' then "\\t"
    else if c == 8 as char then "\\b"
    else if c == 12 as char then "\\f"
    else if c < ' ' then "\\u00" + [Hex(c as int / 16), Hex(c as int % 16)]
    else [c]
  }

  /** Section 25.5.2.4 of ECMA-262: what stands for itself, the short escapes, and `\u` for the other controls. */
  lemma EscapeSpelled(c: char)
    ensures c >= ' ' && c != '"' && c != '\\' ==> EscapeChar(c) == [c]
    ensures c == '"' || c == '\\' ==> EscapeChar(c) == ['\\', c]
    ensures c as int in {8, 9, 10, 12, 13} ==> EscapeChar(c) == ['\\', "btn.fr"[c as int - 8]]
    ensures c < ' ' && c as int !in {8, 9, 10, 12, 13} ==>
              EscapeChar(c) == "\\u00" + ["01"[c as int / 16], "0123456789abcdef"[c as int % 16]]
  {}

  function Escape(s: string): string {
    if s == [] then [] else EscapeChar(s[0]) + Escape(s[1..])
  }

  function Quote(s: string): string { "\"" + Escape(s) + "\"" }

  /** `JSON.stringify` without white space. */
  function Print(v: Json): string {
    match v
    case Null => "null"
    case Bool(value) => if value then "true" else "false"
    case Number(text) => text
    case Str(text) => Quote(text)
    case Array(items) => if items.End? then "[]" else "[" + Print(items.head) + PrintItems(items.rest)
    case Object(ms) => if ms.Empty? then "{}" else "{" + Quote(ms.name) + ":" + Print(ms.value) + PrintMembers(ms.rest)
  }

  function PrintItems(items: Items): string {
    if items.End? then "]" else "," + Print(items.head) + PrintItems(items.rest)
  }

  function PrintMembers(ms: Members): string {
    if ms.Empty? then "}" else "," + Quote(ms.name) + ":" + Print(ms.value) + PrintMembers(ms.rest)
  }

  function CanonicalJson(v: Json): string { Print(Canonical(v)) }

  // --------------------------------------------- equal up to the order of members

  function Lookup(ms: Members, name: string): Json
    requires HasName(ms, name)
  {
    if ms.name == name then ms.value else Lookup(ms.rest, name)
  }

  function Without(ms: Members, name: string): Members {
    if ms.Empty? then Empty else if ms.name == name then ms.rest else Member(ms.name, ms.value, Without(ms.rest, name))
  }

  predicate Same(v: Json, w: Json) {
    match v
    case Array(items) => w.Array? && SameItems(items, w.items)
    case Object(members) => w.Object? && SameMembers(members, w.members)
    case _ => v == w
  }

  predicate SameItems(a: Items, b: Items) {
    if a.End? then b.End? else b.Item? && Same(a.head, b.head) && SameItems(a.rest, b.rest)
  }

  /** Each member of `a` has its equal in `b`, in any order, and `b` has no others. */
  predicate SameMembers(a: Members, b: Members) {
    if a.Empty? then b.Empty?
    else HasName(b, a.name) && Same(a.value, Lookup(b, a.name)) && SameMembers(a.rest, Without(b, a.name))
  }

  // ------------------------------------------------------------------ the order

  lemma BeforeTotal(a: string, b: string)
    ensures a == b || Before(a, b) || Before(b, a)
  {
    LessTotal(a, b);
  }

  lemma BeforeStrict(a: string, b: string, c: string)
    ensures !Before(a, a)
    ensures Before(a, b) && Before(b, c) ==> Before(a, c)
  {
    LessIrreflexive(a);
    if Less(a, b) && Less(b, c) { LessTransitive(a, b, c); }
  }

  lemma {:induction false} InsertNames(name: string, value: Json, ms: Members, other: string)
    ensures HasName(Insert(name, value, ms), other) <==> other == name || HasName(ms, other)
  {
    if ms.Member? { InsertNames(name, value, ms.rest, other); }
  }

  /** Inserting two members commutes, so sorting forgets the source order. */
  lemma {:induction false} InsertCommutes(a: string, x: Json, b: string, y: Json, ms: Members)
    requires a != b
    ensures Insert(a, x, Insert(b, y, ms)) == Insert(b, y, Insert(a, x, ms))
  {
    BeforeTotal(a, b);
    BeforeStrict(a, b, a);
    if ms.Member? {
      BeforeStrict(a, b, ms.name);
      BeforeStrict(b, a, ms.name);
      InsertCommutes(a, x, b, y, ms.rest);
      hide Before;
    }
  }

  lemma {:induction false} InsertLookup(name: string, value: Json, ms: Members, other: string)
    requires !HasName(ms, name) && (other == name || HasName(ms, other))
    ensures HasName(Insert(name, value, ms), other)
    ensures Lookup(Insert(name, value, ms), other) == if other == name then value else Lookup(ms, other)
  {
    InsertNames(name, value, ms, other);
    if ms.Member? && !Before(name, ms.name) && ms.name != other {
      InsertLookup(name, value, ms.rest, other);
    }
  }

  lemma {:induction false} InsertWithout(name: string, value: Json, ms: Members)
    requires !HasName(ms, name)
    ensures Without(Insert(name, value, ms), name) == ms
  {
    if ms.Member? { InsertWithout(name, value, ms.rest); }
  }

  predicate Sorted(ms: Members) {
    ms.Member? && ms.rest.Member? ==> Before(ms.name, ms.rest.name) && Sorted(ms.rest)
  }

  lemma {:induction false} InsertSorted(name: string, value: Json, ms: Members)
    requires Sorted(ms) && !HasName(ms, name)
    ensures Sorted(Insert(name, value, ms))
  {
    if ms.Member? {
      BeforeTotal(name, ms.name);
      InsertSorted(name, value, ms.rest);
    }
  }

  lemma {:induction false} CanonicalNames(ms: Members, name: string)
    ensures HasName(CanonicalMembers(ms), name) <==> HasName(ms, name)
  {
    if ms.Member? {
      CanonicalNames(ms.rest, name);
      InsertNames(ms.name, Canonical(ms.value), CanonicalMembers(ms.rest), name);
    }
  }

  lemma {:induction false} CanonicalSorted(ms: Members)
    requires WellformedMembers(ms)
    ensures Sorted(CanonicalMembers(ms))
  {
    if ms.Member? {
      CanonicalSorted(ms.rest);
      CanonicalNames(ms.rest, ms.name);
      InsertSorted(ms.name, Canonical(ms.value), CanonicalMembers(ms.rest));
    }
  }

  /** At every depth the members of an object stand in the print order. */
  predicate Ordered(v: Json) {
    match v
    case Array(items) => OrderedItems(items)
    case Object(members) => Sorted(members) && OrderedValues(members)
    case _ => true
  }

  predicate OrderedItems(items: Items) {
    items.End? || (Ordered(items.head) && OrderedItems(items.rest))
  }

  predicate OrderedValues(ms: Members) {
    ms.Empty? || (Ordered(ms.value) && OrderedValues(ms.rest))
  }

  lemma {:induction false} InsertOrdered(name: string, value: Json, ms: Members)
    requires Ordered(value) && OrderedValues(ms)
    ensures OrderedValues(Insert(name, value, ms))
  {
    if ms.Member? { InsertOrdered(name, value, ms.rest); }
  }

  lemma {:induction false} CanonicalOrdered(v: Json)
    requires Wellformed(v)
    ensures Ordered(Canonical(v))
    decreases v, 1
  {
    match v
    case Array(items) => CanonicalItemsOrdered(items);
    case Object(members) =>
      CanonicalSorted(members);
      CanonicalValuesOrdered(members);
    case _ =>
  }

  lemma {:induction false} CanonicalItemsOrdered(items: Items)
    requires WellformedItems(items)
    ensures OrderedItems(CanonicalItems(items))
    decreases items, 0
  {
    if items.Item? {
      CanonicalOrdered(items.head);
      CanonicalItemsOrdered(items.rest);
    }
  }

  lemma {:induction false} CanonicalValuesOrdered(ms: Members)
    requires WellformedMembers(ms)
    ensures OrderedValues(CanonicalMembers(ms))
    decreases ms, 0
  {
    if ms.Member? {
      CanonicalOrdered(ms.value);
      CanonicalValuesOrdered(ms.rest);
      InsertOrdered(ms.name, Canonical(ms.value), CanonicalMembers(ms.rest));
    }
  }

  lemma {:induction false} WithoutNames(ms: Members, name: string, other: string)
    requires WellformedMembers(ms)
    ensures WellformedMembers(Without(ms, name))
    ensures HasName(Without(ms, name), other) <==> HasName(ms, other) && other != name
  {
    if ms.Member? {
      WithoutNames(ms.rest, name, other);
      WithoutNames(ms.rest, name, ms.name);
    }
  }

  lemma {:induction false} CanonicalLookup(ms: Members, name: string)
    requires WellformedMembers(ms) && HasName(ms, name)
    ensures HasName(CanonicalMembers(ms), name) && Lookup(CanonicalMembers(ms), name) == Canonical(Lookup(ms, name))
    ensures Wellformed(Lookup(ms, name))
  {
    CanonicalNames(ms.rest, ms.name);
    CanonicalNames(ms.rest, name);
    if ms.name != name { CanonicalLookup(ms.rest, name); }
    InsertLookup(ms.name, Canonical(ms.value), CanonicalMembers(ms.rest), name);
  }

  /** Sorting is inserting any member into the sorted others. */
  lemma {:induction false} CanonicalInsert(ms: Members, name: string)
    requires WellformedMembers(ms) && HasName(ms, name)
    ensures CanonicalMembers(ms) == Insert(name, Canonical(Lookup(ms, name)), CanonicalMembers(Without(ms, name)))
  {
    if ms.name != name {
      CanonicalInsert(ms.rest, name);
      InsertCommutes(ms.name, Canonical(ms.value), name, Canonical(Lookup(ms.rest, name)),
          CanonicalMembers(Without(ms.rest, name)));
    }
  }

  // -------------------------------------- canonical values decide sameness

  lemma {:induction false} CanonicalDecides(v: Json, w: Json)
    requires Wellformed(v) && Wellformed(w)
    ensures Canonical(v) == Canonical(w) <==> Same(v, w)
    decreases v, 1
  {
    match v
    case Array(items) => if w.Array? { CanonicalDecidesItems(items, w.items); }
    case Object(members) => if w.Object? { CanonicalDecidesMembers(members, w.members); }
    case _ =>
  }

  lemma {:induction false} CanonicalDecidesItems(a: Items, b: Items)
    requires WellformedItems(a) && WellformedItems(b)
    ensures CanonicalItems(a) == CanonicalItems(b) <==> SameItems(a, b)
    decreases a, 0
  {
    if a.Item? && b.Item? {
      CanonicalDecides(a.head, b.head);
      CanonicalDecidesItems(a.rest, b.rest);
    }
  }

  lemma {:induction false} CanonicalDecidesMembers(a: Members, b: Members)
    requires WellformedMembers(a) && WellformedMembers(b)
    ensures CanonicalMembers(a) == CanonicalMembers(b) <==> SameMembers(a, b)
    decreases a, 0
  {
    if a.Empty? {
      if b.Member? {
        CanonicalNames(b, b.name);
      }
    } else {
      CanonicalNames(a, a.name);
      CanonicalNames(b, a.name);
      CanonicalNames(a.rest, a.name);
      if HasName(b, a.name) {
        var rest := Without(b, a.name);
        WithoutNames(b, a.name, a.name);
        CanonicalLookup(b, a.name);
        CanonicalNames(rest, a.name);
        CanonicalDecides(a.value, Lookup(b, a.name));
        CanonicalDecidesMembers(a.rest, rest);
        CanonicalInsert(b, a.name);
        InsertLookup(a.name, Canonical(a.value), CanonicalMembers(a.rest), a.name);
        InsertWithout(a.name, Canonical(a.value), CanonicalMembers(a.rest));
        InsertWithout(a.name, Canonical(Lookup(b, a.name)), CanonicalMembers(rest));
      }
    }
  }

  lemma {:induction false} CanonicalWellformed(v: Json)
    requires Wellformed(v)
    ensures Wellformed(Canonical(v)) && Canonical(Canonical(v)) == Canonical(v)
    decreases v, 1
  {
    match v
    case Array(items) => CanonicalItemsWellformed(items);
    case Object(members) => CanonicalMembersWellformed(members);
    case _ =>
  }

  lemma {:induction false} CanonicalItemsWellformed(items: Items)
    requires WellformedItems(items)
    ensures WellformedItems(CanonicalItems(items)) && CanonicalItems(CanonicalItems(items)) == CanonicalItems(items)
    decreases items, 0
  {
    if items.Item? {
      CanonicalWellformed(items.head);
      CanonicalItemsWellformed(items.rest);
    }
  }

  /** Canonicalising an inserted canonical member inserts it again. */
  lemma {:induction false} CanonicalOfInsert(name: string, value: Json, ms: Members)
    requires Wellformed(value) && Canonical(value) == value && WellformedMembers(ms) && CanonicalMembers(ms) == ms
        && !HasName(ms, name)
    ensures WellformedMembers(Insert(name, value, ms))
        && CanonicalMembers(Insert(name, value, ms)) == Insert(name, value, ms)
  {
    InsertedWellformed(name, value, ms);
    InsertNames(name, value, ms, name);
    InsertLookup(name, value, ms, name);
    InsertWithout(name, value, ms);
    CanonicalInsert(Insert(name, value, ms), name);
  }

  lemma {:induction false} InsertedWellformed(name: string, value: Json, ms: Members)
    requires Wellformed(value) && WellformedMembers(ms) && !HasName(ms, name)
    ensures WellformedMembers(Insert(name, value, ms))
  {
    if ms.Member? {
      InsertedWellformed(name, value, ms.rest);
      InsertNames(name, value, ms.rest, ms.name);
    }
  }

  lemma {:induction false} CanonicalMembersWellformed(ms: Members)
    requires WellformedMembers(ms)
    ensures WellformedMembers(CanonicalMembers(ms)) && CanonicalMembers(CanonicalMembers(ms)) == CanonicalMembers(ms)
    decreases ms, 0
  {
    if ms.Member? {
      CanonicalWellformed(ms.value);
      CanonicalMembersWellformed(ms.rest);
      CanonicalNames(ms.rest, ms.name);
      CanonicalOfInsert(ms.name, Canonical(ms.value), CanonicalMembers(ms.rest));
    }
  }

  // --------------------------------------------- the text determines the value

  /** What may follow a value: nothing, or the sign that ends it. */
  predicate Ends(s: string) { s == [] || s[0] in ",]}" }

  lemma HexInjective(a: nat, b: nat)
    requires a < 16 && b < 16 && Hex(a) == Hex(b)
    ensures a == b
  {}

  lemma EscapeCharUnique(c: char, d: char, s: string, t: string)
    requires EscapeChar(c) + s == EscapeChar(d) + t
    ensures c == d && s == t
  {
    var x, y := EscapeChar(c) + s, EscapeChar(d) + t;
    if x[0] == '\\' {
      assert x[1] == EscapeChar(c)[1] == EscapeChar(d)[1];
      if x[1] == 'u' {
        assert x[4] == EscapeChar(c)[4] == EscapeChar(d)[4] && x[5] == EscapeChar(c)[5] == EscapeChar(d)[5];
        HexInjective(c as int / 16, d as int / 16);
        HexInjective(c as int % 16, d as int % 16);
      }
    }
    assert c == d;
    assert s == x[|EscapeChar(c)|..] && t == y[|EscapeChar(d)|..];
  }

  lemma EscapeHead(a: string, s: string)
    ensures (Escape(a) + "\"" + s)[0] == '"' <==> a == []
    ensures a != [] ==> Escape(a) + "\"" + s == EscapeChar(a[0]) + (Escape(a[1..]) + "\"" + s)
  {
    if a != [] {
      hide EscapeChar;
      var rest := Escape(a[1..]);
      assert Escape(a) == EscapeChar(a[0]) + rest;
      hide Escape;
      assert EscapeChar(a[0]) + rest + "\"" + s == EscapeChar(a[0]) + (rest + "\"" + s);
      assert (Escape(a) + "\"" + s)[0] == EscapeChar(a[0])[0];
    }
  }

  lemma {:induction false} EscapeUnique(a: string, b: string, s: string, t: string)
    requires Escape(a) + "\"" + s == Escape(b) + "\"" + t
    ensures a == b && s == t
  {
    hide EscapeChar;
    EscapeHead(a, s);
    EscapeHead(b, t);
    if a == [] {
      assert s == (Escape(a) + "\"" + s)[1..] && t == (Escape(b) + "\"" + t)[1..];
    } else {
      EscapeCharUnique(a[0], b[0], Escape(a[1..]) + "\"" + s, Escape(b[1..]) + "\"" + t);
      EscapeUnique(a[1..], b[1..], s, t);
      assert a == [a[0]] + a[1..] && b == [b[0]] + b[1..];
    }
  }

  lemma QuoteUnique(a: string, b: string, s: string, t: string)
    requires Quote(a) + s == Quote(b) + t
    ensures a == b && s == t
  {
    QuoteTail(Escape(a), s);
    QuoteTail(Escape(b), t);
    hide Escape;
    EscapeUnique(a, b, s, t);
  }

  lemma QuoteTail(escaped: string, s: string)
    ensures ("\"" + escaped + "\"" + s)[1..] == escaped + "\"" + s
  {}

  /** The number a text starts with. */
  function NumberAhead(x: string): string {
    if x != [] && NumberChar(x[0]) then [x[0]] + NumberAhead(x[1..]) else []
  }

  lemma {:induction false} NumberIsAhead(a: string, s: string)
    requires Ends(s) && forall c :: c in a ==> NumberChar(c)
    ensures NumberAhead(a + s) == a
  {
    if a == [] {
      assert a + s == s;
    } else {
      assert (a + s)[1..] == a[1..] + s;
      NumberIsAhead(a[1..], s);
    }
  }

  lemma NumberUnique(a: string, b: string, s: string, t: string)
    requires a + s == b + t && Ends(s) && Ends(t)
    requires (forall c :: c in a ==> NumberChar(c)) && (forall c :: c in b ==> NumberChar(c))
    ensures a == b && s == t
  {
    NumberIsAhead(a, s);
    NumberIsAhead(b, t);
    assert s == (a + s)[|a|..] && t == (b + t)[|b|..];
  }

  lemma Regroup(c: char, p: string, q: string, s: string)
    ensures ([c] + p + q + s)[0] == c && ([c] + p + q + s)[1..] == p + (q + s)
  {}

  lemma RegroupMember(c: char, p: string, v: string, q: string, s: string)
    ensures ([c] + p + ":" + v + q + s)[0] == c && ([c] + p + ":" + v + q + s)[1..] == p + (":" + v + q + s)
    ensures (":" + v + q + s)[1..] == v + (q + s)
  {}

  /** The kind of a value, read from its first character. */
  function KindOf(v: Json): nat {
    match v
    case Null => 0
    case Bool(value) => if value then 1 else 2
    case Number(_) => 3
    case Str(_) => 4
    case Array(_) => 5
    case Object(_) => 6
  }

  function KindFrom(c: char): nat {
    if c == 'n' then 0 else if c == 't' then 1 else if c == 'f' then 2
    else if c == '"' then 4 else if c == '[' then 5 else if c == '{' then 6 else 3
  }

  lemma PrintStarts(v: Json)
    requires Wellformed(v)
    ensures Print(v) != [] && KindFrom(Print(v)[0]) == KindOf(v) && Print(v)[0] !in "]}"
  {}

  /** Texts that agree were printed from one value, whatever follows them. */
  lemma {:induction false} PrintUnique(v: Json, w: Json, s: string, t: string)
    requires Wellformed(v) && Wellformed(w) && Ends(s) && Ends(t)
    requires Print(v) + s == Print(w) + t
    ensures v == w && s == t
    decreases v, 1
  {
    PrintStarts(v);
    PrintStarts(w);
    assert Print(v)[0] == (Print(v) + s)[0] == (Print(w) + t)[0] == Print(w)[0];
    assert KindOf(v) == KindOf(w);
    match v
    case Number(text) => NumberUnique(text, w.text, s, t);
    case Str(text) => QuoteUnique(text, w.text, s, t);
    case Array(items) => PrintArrayUnique(items, w.items, s, t);
    case Object(members) => PrintObjectUnique(members, w.members, s, t);
    case _ =>
      assert s == (Print(v) + s)[|Print(v)|..] && t == (Print(w) + t)[|Print(w)|..];
  }

  lemma {:induction false} PrintArrayUnique(a: Items, b: Items, s: string, t: string)
    requires WellformedItems(a) && WellformedItems(b) && Ends(s) && Ends(t)
    requires Print(Array(a)) + s == Print(Array(b)) + t
    ensures a == b && s == t
    decreases a, 1
  {
    ArrayText(a, s);
    ArrayText(b, t);
    hide Print, PrintItems;
    var x, y := Print(Array(a)) + s, Print(Array(b)) + t;
    assert x[1..] == y[1..] && x[1] == y[1];
    if a.Item? {
      PrintItemUnique(a, b, s, t);
    } else {
      assert s == x[2..] && t == y[2..];
    }
  }

  lemma ArrayText(a: Items, s: string)
    requires WellformedItems(a)
    ensures |Print(Array(a))| >= 2 && ((Print(Array(a)) + s)[1] == ']' <==> a.End?)
    ensures a.End? ==> Print(Array(a)) + s == "[]" + s
    ensures a.Item? ==> (Print(Array(a)) + s)[1..] == Print(a.head) + (PrintItems(a.rest) + s)
  {
    if a.Item? {
      PrintStarts(a.head);
      hide Wellformed;
      Regroup('[', Print(a.head), PrintItems(a.rest), s);
      assert (Print(Array(a)) + s)[1] == Print(a.head)[0];
    }
  }

  /** One item's text and what follows. */
  lemma {:induction false} PrintItemUnique(a: Items, b: Items, s: string, t: string)
    requires a.Item? && b.Item? && WellformedItems(a) && WellformedItems(b)
    requires Print(a.head) + (PrintItems(a.rest) + s) == Print(b.head) + (PrintItems(b.rest) + t)
    ensures a == b && s == t
    decreases a, 0
  {
    ItemsText(a.rest, s);
    ItemsText(b.rest, t);
    hide Print, PrintItems;
    PrintUnique(a.head, b.head, PrintItems(a.rest) + s, PrintItems(b.rest) + t);
    PrintItemsUnique(a.rest, b.rest, s, t);
  }

  lemma ItemsText(a: Items, s: string)
    ensures Ends(PrintItems(a) + s) && PrintItems(a) + s != []
    ensures (PrintItems(a) + s)[0] == ']' <==> a.End?
    ensures a.Item? ==> (PrintItems(a) + s)[1..] == Print(a.head) + (PrintItems(a.rest) + s)
    ensures a.End? ==> (PrintItems(a) + s)[1..] == s
  {
    if a.Item? { Regroup(',', Print(a.head), PrintItems(a.rest), s); }
  }

  lemma {:induction false} PrintItemsUnique(a: Items, b: Items, s: string, t: string)
    requires WellformedItems(a) && WellformedItems(b)
    requires PrintItems(a) + s == PrintItems(b) + t
    ensures a == b && s == t
    decreases a, 1
  {
    ItemsText(a, s);
    ItemsText(b, t);
    hide Print, PrintItems;
    if a.Item? { PrintItemUnique(a, b, s, t); }
  }

  lemma MembersText(a: Members, s: string)
    ensures Ends(PrintMembers(a) + s) && PrintMembers(a) + s != []
    ensures (PrintMembers(a) + s)[0] == '}' <==> a.Empty?
    ensures a.Member? ==>
        (PrintMembers(a) + s)[1..] == Quote(a.name) + (":" + Print(a.value) + PrintMembers(a.rest) + s)
    ensures a.Empty? ==> (PrintMembers(a) + s)[1..] == s
  {
    hide Quote;
    if a.Member? { RegroupMember(',', Quote(a.name), Print(a.value), PrintMembers(a.rest), s); }
  }

  lemma ObjectText(a: Members, s: string)
    ensures |Print(Object(a))| >= 2 && ((Print(Object(a)) + s)[1] == '}' <==> a.Empty?)
    ensures a.Empty? ==> Print(Object(a)) + s == "{}" + s
    ensures a.Member? ==>
        (Print(Object(a)) + s)[1..] == Quote(a.name) + (":" + Print(a.value) + PrintMembers(a.rest) + s)
  {
    if a.Member? {
      assert Quote(a.name)[0] == '"';
      hide Quote;
      RegroupMember('{', Quote(a.name), Print(a.value), PrintMembers(a.rest), s);
      assert (Print(Object(a)) + s)[1] == Quote(a.name)[0];
    }
  }

  /** One member's text, `"name":value`, and what follows. */
  lemma {:induction false} PrintMemberUnique(a: Members, b: Members, s: string, t: string)
    requires a.Member? && b.Member? && WellformedMembers(a) && WellformedMembers(b)
    requires Quote(a.name) + (":" + Print(a.value) + PrintMembers(a.rest) + s) ==
          Quote(b.name) + (":" + Print(b.value) + PrintMembers(b.rest) + t)
    ensures a == b && s == t
    decreases a, 0
  {
    hide Quote, Print, PrintMembers;
    QuoteUnique(a.name, b.name, ":" + Print(a.value) + PrintMembers(a.rest) + s,
        ":" + Print(b.value) + PrintMembers(b.rest) + t);
    RegroupMember(':', a.name, Print(a.value), PrintMembers(a.rest), s);
    RegroupMember(':', b.name, Print(b.value), PrintMembers(b.rest), t);
    MembersText(a.rest, s);
    MembersText(b.rest, t);
    PrintUnique(a.value, b.value, PrintMembers(a.rest) + s, PrintMembers(b.rest) + t);
    PrintMembersUnique(a.rest, b.rest, s, t);
  }

  lemma {:induction false} PrintObjectUnique(a: Members, b: Members, s: string, t: string)
    requires WellformedMembers(a) && WellformedMembers(b)
    requires Print(Object(a)) + s == Print(Object(b)) + t
    ensures a == b && s == t
    decreases a, 1
  {
    ObjectText(a, s);
    ObjectText(b, t);
    hide Quote, Print, PrintMembers;
    var x, y := Print(Object(a)) + s, Print(Object(b)) + t;
    assert x[1] == y[1];
    if a.Member? {
      PrintMemberUnique(a, b, s, t);
    } else {
      assert s == x[2..] && t == y[2..];
    }
  }

  lemma {:induction false} PrintMembersUnique(a: Members, b: Members, s: string, t: string)
    requires WellformedMembers(a) && WellformedMembers(b)
    requires PrintMembers(a) + s == PrintMembers(b) + t
    ensures a == b && s == t
    decreases a, 1
  {
    MembersText(a, s);
    MembersText(b, t);
    hide Quote, Print, PrintMembers;
    if a.Member? { PrintMemberUnique(a, b, s, t); }
  }

  // ------------------------------------------------------------------ the theorems

  /** Two values have one canonical text exactly when they are equal up to the order of members at every depth. */
  lemma SameTextExactlyWhenSame(v: Json, w: Json)
    requires Wellformed(v) && Wellformed(w)
    ensures CanonicalJson(v) == CanonicalJson(w) <==> Same(v, w)
  {
    CanonicalDecides(v, w);
    CanonicalWellformed(v);
    CanonicalWellformed(w);
    if CanonicalJson(v) == CanonicalJson(w) {
      assert Print(Canonical(v)) + "" == Print(Canonical(w)) + "";
      PrintUnique(Canonical(v), Canonical(w), "", "");
    }
  }

  /**
   Canonicalising puts members in order at every depth, changes nothing else, and doing it again changes nothing at
   all.
   */
  lemma CanonicalIsStable(v: Json)
    requires Wellformed(v)
    ensures Same(v, Canonical(v)) && Canonical(Canonical(v)) == Canonical(v)
    ensures CanonicalJson(Canonical(v)) == CanonicalJson(v)
    ensures Ordered(Canonical(v))
  {
    CanonicalOrdered(v);
    CanonicalWellformed(v);
    CanonicalDecides(v, Canonical(v));
  }
}
