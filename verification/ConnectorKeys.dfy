/**
 The key every assigned connector gets (packages/connectors/src/connector-keys.ts): the slug
 of its name, or, where an older connector has that slug, the slug with a searched suffix.
 */
module ConnectorKeys {
  import opened Text
  import opened Sorting
  import Sets

  const KEY_MAX := 63
  const FALLBACK := "connector"

  /** The longest array JavaScript has; a list of rows is no longer. */
  const ROWS_MAX := 0xFFFF_FFFF

  /** A row, with its name already decomposed (NFKD), without combining marks, in lower case. */
  datatype Named = Named(id: string, name: string)

  // ------------------------------------------------------------------ slugs

  predicate Alnum(c: char) { 'a' <= c <= 'z' || IsDigit(c) }

  predicate KeyChar(c: char) { Alnum(c) || c == '-' }

  /** Every run of other characters becomes one dash. */
  function Dashed(s: string): (r: string)
    ensures forall c :: c in r ==> KeyChar(c)
  {
    if s == [] then []
    else if Alnum(s[0]) then [s[0]] + Dashed(s[1..])
    else if |s| > 1 && !Alnum(s[1]) then Dashed(s[1..])
    else "-" + Dashed(s[1..])
  }

  function TrimStart(s: string): (r: string)
    ensures r != [] ==> r[0] != '-'
    ensures forall c :: c in r ==> c in s
  {
    if s != [] && s[0] == '-' then TrimStart(s[1..]) else s
  }

  function TrimEnd(s: string): (r: string)
    ensures r <= s && (r != [] ==> r[|r| - 1] != '-')
    ensures s != [] && s[0] != '-' ==> r != []
  {
    if s != [] && s[|s| - 1] == '-' then TrimEnd(s[..|s| - 1]) else s
  }

  /** `s.slice(0, end)`; a negative end counts from the back. */
  function SliceTo(s: string, end: int): (r: string)
    ensures r <= s
    ensures end >= 0 ==> |r| <= end
    ensures end > 0 && s != [] ==> r != []
  {
    if end >= |s| then s else if end >= 0 then s[..end] else if |s| + end > 0 then s[..|s| + end] else []
  }

  function SlugOf(name: string): string {
    var slug := TrimEnd(SliceTo(TrimEnd(TrimStart(Dashed(name))), KEY_MAX));
    if slug == [] then FALLBACK else slug
  }

  /** At most 63 lower-case letters, digits and inner dashes. */
  predicate KeyOk(key: string) {
    1 <= |key| <= KEY_MAX && (forall c :: c in key ==> KeyChar(c)) && key[0] != '-' && key[|key| - 1] != '-'
  }

  lemma SlugIsKey(name: string)
    ensures KeyOk(SlugOf(name))
  {
    var trimmed := TrimStart(Dashed(name));
    var slug := TrimEnd(SliceTo(TrimEnd(trimmed), KEY_MAX));
    assert slug <= SliceTo(TrimEnd(trimmed), KEY_MAX) <= TrimEnd(trimmed) <= trimmed;
    forall c | c in slug ensures KeyChar(c) {
      assert c in trimmed;
    }
  }

  /** No two dashes stand together. */
  predicate Single(s: string) { forall i :: 0 <= i < |s| - 1 ==> !(s[i] == '-' == s[i + 1]) }

  lemma {:induction false} DashedSingle(s: string)
    ensures Single(Dashed(s)) && (s != [] ==> Dashed(s) != [] && (Dashed(s)[0] == '-' <==> !Alnum(s[0])))
  {
    if s != [] { DashedSingle(s[1..]); }
  }

  lemma {:induction false} DashedKeeps(s: string)
    requires Single(s) && forall c :: c in s ==> KeyChar(c)
    ensures Dashed(s) == s
  {
    if s != [] {
      assert forall i :: 0 <= i < |s| - 1 ==> s[1..][i] == s[i + 1];
      DashedKeeps(s[1..]);
      assert s == [s[0]] + s[1..];
      assert KeyChar(s[0]) && (|s| > 1 ==> KeyChar(s[1]) && !(s[0] == '-' == s[0 + 1]));
    }
  }

  lemma {:induction false} TrimStartSingle(s: string)
    requires Single(s)
    ensures Single(TrimStart(s))
  {
    if s != [] && s[0] == '-' {
      assert forall i :: 0 <= i < |s| - 1 ==> s[1..][i] == s[i + 1];
      TrimStartSingle(s[1..]);
    }
  }

  /** A key without double dashes, and so every slug, is its own slug. */
  lemma KeyIsItsSlug(key: string)
    requires KeyOk(key) && Single(key)
    ensures SlugOf(key) == key
  {
    DashedKeeps(key);
  }

  lemma SlugIsSingle(name: string)
    ensures Single(SlugOf(name))
  {
    DashedSingle(name);
    TrimStartSingle(Dashed(name));
    assert SlugOf(name) == FALLBACK || SlugOf(name) <= TrimStart(Dashed(name));
  }

  lemma SlugIsStable(name: string)
    ensures SlugOf(SlugOf(name)) == SlugOf(name)
  {
    SlugIsSingle(name);
    SlugIsKey(name);
    KeyIsItsSlug(SlugOf(name));
  }

  // ------------------------------------------------------------------ what a slug says

  /** The text of `words` with `gaps` before, between and after them. */
  ghost function Filled(gaps: seq<string>, words: seq<string>): string
    requires |gaps| == |words| + 1
  {
    if words == [] then gaps[0] else gaps[0] + (words[0] + Filled(gaps[1..], words[1..]))
  }

  ghost predicate Word(w: string) { w != [] && forall c :: c in w ==> 'a' <= c <= 'z' || '0' <= c <= '9' }

  ghost predicate Gap(g: string) { forall c :: c in g ==> !('a' <= c <= 'z') && !('0' <= c <= '9') }

  /** The words of a name: its longest runs of letters and digits, with everything else in the gaps. */
  ghost predicate WordsOf(words: seq<string>, gaps: seq<string>, name: string) {
    && |gaps| == |words| + 1 && name == Filled(gaps, words)
    && (forall w :: w in words ==> Word(w)) && (forall g :: g in gaps ==> Gap(g))
    && forall i :: 0 < i < |words| ==> gaps[i] != []
  }

  /** Every name has words. */
  ghost function WordsIn(name: string): (r: (seq<string>, seq<string>))
    ensures WordsOf(r.0, r.1, name)
  {
    if name == [] then ([], [[]])
    else
      var (words, gaps) := WordsIn(name[1..]);
      assert name == [name[0]] + name[1..];
      if !Alnum(name[0]) then
        LongerGap(name[0], words, gaps, name[1..]);
        (words, [[name[0]] + gaps[0]] + gaps[1..])
      else if gaps[0] == [] && words != [] then
        LongerWord(name[0], words, gaps, name[1..]);
        ([[name[0]] + words[0]] + words[1..], gaps)
      else
        NewWord(name[0], words, gaps, name[1..]);
        ([[name[0]]] + words, [[]] + gaps)
  }

  lemma LongerGap(c: char, words: seq<string>, gaps: seq<string>, name: string)
    requires WordsOf(words, gaps, name) && !Alnum(c)
    ensures WordsOf(words, [[c] + gaps[0]] + gaps[1..], [c] + name)
  {
    assert gaps[0] in gaps;
    var longer := [[c] + gaps[0]] + gaps[1..];
    assert longer[1..] == gaps[1..];
    forall g | g in longer ensures Gap(g) { assert g == [c] + gaps[0] || g in gaps; }
    hide Gap, Word;
  }

  lemma LongerWord(c: char, words: seq<string>, gaps: seq<string>, name: string)
    requires WordsOf(words, gaps, name) && Alnum(c) && gaps[0] == [] && words != []
    ensures WordsOf([[c] + words[0]] + words[1..], gaps, [c] + name)
  {
    var longer := [[c] + words[0]] + words[1..];
    assert longer[1..] == words[1..] && words[0] in words;
    forall w | w in longer ensures Word(w) { assert w == [c] + words[0] || w in words; }
    hide Gap, Word;
  }

  lemma NewWord(c: char, words: seq<string>, gaps: seq<string>, name: string)
    requires WordsOf(words, gaps, name) && Alnum(c) && (gaps[0] == [] ==> words == [])
    ensures WordsOf([[c]] + words, [[]] + gaps, [c] + name)
  {
    var more, edges := [[c]] + words, [[]] + gaps;
    assert more[1..] == words && edges[1..] == gaps;
    forall w | w in more ensures Word(w) { assert w == [c] || w in words; }
    forall g | g in edges ensures Gap(g) { assert g == [] || g in gaps; }
    hide Gap, Word;
  }

  lemma {:induction false} DashedGap(gap: string, rest: string)
    requires Gap(gap) && (rest != [] ==> Alnum(rest[0]))
    ensures Dashed(gap + rest) == (if gap == [] then "" else "-") + Dashed(rest)
  {
    if gap == [] {
      assert gap + rest == rest;
    } else {
      assert (gap + rest)[1..] == gap[1..] + rest && gap[0] in gap;
      assert forall c :: c in gap[1..] ==> c in gap;
      if |gap| > 1 { assert gap[1] in gap; } else { assert gap[1..] + rest == rest; }
      DashedGap(gap[1..], rest);
    }
  }

  lemma {:induction false} DashedWord(word: string, rest: string)
    requires forall c :: c in word ==> 'a' <= c <= 'z' || '0' <= c <= '9'
    ensures Dashed(word + rest) == word + Dashed(rest)
  {
    if word == [] {
      assert word + rest == rest;
    } else {
      assert (word + rest)[1..] == word[1..] + rest && word[0] in word;
      assert forall c :: c in word[1..] ==> c in word;
      DashedWord(word[1..], rest);
    }
  }

  function Edge(gap: string): string { if gap == [] then "" else "-" }

  /** The dashes stand for the gaps. */
  lemma {:induction false} DashedWords(words: seq<string>, gaps: seq<string>, name: string)
    requires WordsOf(words, gaps, name)
    ensures Dashed(name) ==
              Edge(gaps[0]) + if words == [] then "" else Join(words, '-') + Edge(gaps[|words|])
  {
    if words == [] {
      assert gaps[0] in gaps && name + [] == name;
      DashedGap(name, []);
    } else {
      var rest := Filled(gaps[1..], words[1..]);
      assert gaps[0] in gaps && words[0] in words && words[0][0] in words[0];
      DashedGap(gaps[0], words[0] + rest);
      DashedWord(words[0], rest);
      DashedWords(words[1..], gaps[1..], rest);
    }
  }

  /** A text with no dash at its end, cut after `n` characters, loses at most one more character. */
  lemma CutOnce(s: string, n: nat)
    requires Single(s) && (s != [] ==> s[|s| - 1] != '-') && 0 < n
    ensures TrimEnd(SliceTo(s, n)) ==
              if |s| <= n then s else if s[n - 1] == '-' then s[..n - 1] else s[..n]
  {
    if |s| > n && s[n - 1] == '-' && n > 1 {
      assert s[n - 2] != '-';
    }
  }

  lemma {:induction false} JoinEdges(words: seq<string>)
    requires words != [] && forall w :: w in words ==> Word(w)
    ensures var s := Join(words, '-'); s != [] && s[0] != '-' && s[|s| - 1] != '-'
  {
    assert words[0] in words && words[0][0] in words[0];
    if |words| > 1 { JoinEdges(words[1..]); } else { assert words[0][|words[0]| - 1] in words[0]; }
  }

  /**
   The slug of a name is its words joined by single dashes, cut after 63 characters and before a
   dash that would then stand last; a name without words has the slug `connector`.
   */
  lemma SlugJoinsTheWords(name: string, words: seq<string>, gaps: seq<string>)
    requires WordsOf(words, gaps, name)
    ensures words == [] ==> SlugOf(name) == "connector"
    ensures words != [] ==>
              var joined := Join(words, '-');
              SlugOf(name) ==
                if |joined| <= 63 then joined else if joined[62] == '-' then joined[..62] else joined[..63]
  {
    DashedWords(words, gaps, name);
    if words == [] {
      assert Dashed(name) == Edge(gaps[0]) && TrimStart(Edge(gaps[0])) == [];
    } else {
      JoinEdges(words);
      DashedSingle(name);
      hide WordsOf, Dashed, Single, TrimStart, TrimEnd, SliceTo, Join;
      assert Dashed(name) == Edge(gaps[0]) + Join(words, '-') + Edge(gaps[|words|]);
      CutBetweenEdges(Edge(gaps[0]), Join(words, '-'), Edge(gaps[|words|]));
    }
  }

  lemma CutBetweenEdges(before: string, s: string, after: string)
    requires before in {"", "-"} && after in {"", "-"} && s != [] && s[0] != '-' && s[|s| - 1] != '-'
    requires Single(before + s + after)
    ensures TrimEnd(SliceTo(TrimEnd(TrimStart(before + s + after)), KEY_MAX)) ==
              if |s| <= 63 then s else if s[62] == '-' then s[..62] else s[..63]
  {
    SingleMiddle(before, s, after);
    hide Single, TrimStart, TrimEnd, SliceTo;
    assert before + s + after == before + (s + after);
    TrimsFront(before, s + after);
    TrimsBack(s, after);
    CutOnce(s, 63);
  }

  lemma SingleMiddle(before: string, s: string, after: string)
    requires Single(before + s + after)
    ensures Single(s)
  {
    var all := before + s + after;
    assert forall i :: 0 <= i < |s| ==> s[i] == all[|before| + i];
  }

  lemma TrimsFront(before: string, s: string)
    requires before in {"", "-"} && s != [] && s[0] != '-'
    ensures TrimStart(before + s) == s
  {
    if before == "-" { assert (before + s)[1..] == s; } else { assert before + s == s; }
  }

  lemma TrimsBack(s: string, after: string)
    requires after in {"", "-"} && s != [] && s[|s| - 1] != '-'
    ensures TrimEnd(s + after) == s
  {
    if after == "-" { assert (s + after)[..|s + after| - 1] == s; } else { assert s + after == s; }
  }

  /** A suffixed slug fits in 63 characters: what does not is cut from the slug, not from its number. */
  lemma SuffixedSpelled(name: string, n: nat)
    requires |Digits(n)| < 62
    ensures var slug, room := SlugOf(name), 62 - |Digits(n)|;
            Suffixed(slug, n) ==
              (if |slug| <= room then slug else if slug[room - 1] == '-' then slug[..room - 1] else slug[..room])
              + "-" + Digits(n)
  {
    SlugIsKey(name);
    SlugIsSingle(name);
    CutOnce(SlugOf(name), 62 - |Digits(n)|);
  }

  function Suffixed(slug: string, n: nat): string {
    TrimEnd(SliceTo(slug, KEY_MAX - 1 - |Digits(n)|)) + "-" + Digits(n)
  }

  /** The number after the last dash names the suffix, however short the slug was cut. */
  lemma SuffixInjective(a: string, m: nat, b: string, n: nat)
    requires Suffixed(a, m) == Suffixed(b, n)
    ensures m == n
  {
    var s := Suffixed(a, m);
    var dm, dn := |s| - 1 - |Digits(m)|, |s| - 1 - |Digits(n)|;
    assert s[dm] == '-' == s[dn];
    assert s[dm + 1..] == Digits(m) && s[dn + 1..] == Digits(n);
    LastDashIs(s, dm);
    LastDashIs(s, dn);
    DigitsInjective(m, n);
  }

  function LastDash(s: string): int {
    if s == [] then -1 else if s[|s| - 1] == '-' then |s| - 1 else LastDash(s[..|s| - 1])
  }

  lemma {:induction false} LastDashIs(s: string, k: nat)
    requires k < |s| && s[k] == '-' && '-' !in s[k + 1..]
    ensures LastDash(s) == k
  {
    if k < |s| - 1 {
      assert s[k + 1..][|s| - 1 - (k + 1)] == s[|s| - 1];
      assert s[..|s| - 1][k + 1..] <= s[k + 1..];
      LastDashIs(s[..|s| - 1], k);
    }
  }

  lemma SuffixIsKey(slug: string, n: nat)
    requires KeyOk(slug) && |Digits(n)| <= KEY_MAX - 2
    ensures KeyOk(Suffixed(slug, n))
  {
    var cut := SliceTo(slug, KEY_MAX - 1 - |Digits(n)|);
    var key := Suffixed(slug, n);
    assert cut <= slug && cut[0] == slug[0];
    assert key[|key| - 1] == Digits(n)[|Digits(n)| - 1] && Digits(n)[|Digits(n)| - 1] in Digits(n);
    forall c | c in key ensures KeyChar(c) {
      assert c in slug || c == '-' || c in Digits(n);
    }
  }

  // ------------------------------------------------------------------ the search

  /** The taken suffixes still ahead of `n`: what bounds the search. */
  ghost function Ahead(slug: string, bad: set<string>, n: nat): set<string> {
    set x | x in bad && exists k: nat :: n <= k && Suffixed(slug, k) == x
  }

  lemma SearchShrinks(slug: string, bad: set<string>, n: nat)
    requires Suffixed(slug, n) in bad
    ensures Ahead(slug, bad, n + 1) < Ahead(slug, bad, n)
    ensures |Ahead(slug, bad, n + 1)| < |Ahead(slug, bad, n)|
  {
    assert Suffixed(slug, n) in Ahead(slug, bad, n);
    if Suffixed(slug, n) in Ahead(slug, bad, n + 1) {
      var k: nat :| n + 1 <= k && Suffixed(slug, k) == Suffixed(slug, n);
      SuffixInjective(slug, k, slug, n);
    }
    Sets.SubsetSize(Ahead(slug, bad, n + 1), Ahead(slug, bad, n) - {Suffixed(slug, n)});
  }

  /** The first free suffix from `n` on. */
  function FreeFrom(slug: string, bad: set<string>, n: nat): (m: nat)
    ensures n <= m && Suffixed(slug, m) !in bad
    ensures forall k: nat :: n <= k < m ==> Suffixed(slug, k) in bad
    decreases |Ahead(slug, bad, n)|
  {
    if Suffixed(slug, n) in bad then
      SearchShrinks(slug, bad, n);
      FreeFrom(slug, bad, n + 1)
    else n
  }

  /** The search passes each taken name at most once, so it stops within their number. */
  lemma {:induction false} SearchStops(slug: string, bad: set<string>, n: nat)
    ensures FreeFrom(slug, bad, n) <= n + |Ahead(slug, bad, n)| <= n + |bad|
    decreases |Ahead(slug, bad, n)|
  {
    Sets.SubsetSize(Ahead(slug, bad, n), bad);
    if Suffixed(slug, n) in bad {
      SearchShrinks(slug, bad, n);
      SearchStops(slug, bad, n + 1);
    }
  }

  // ------------------------------------------------------------ what is computed

  function Slug(row: Named): string { SlugOf(row.name) }

  function Slugs(rows: seq<Named>): set<string> { set r | r in rows :: Slug(r) }

  function Ids(rows: seq<Named>): set<string> { set r | r in rows :: r.id }

  /** `taken`, `keys` and `later` after the rows so far. */
  datatype Pass = Pass(taken: set<string>, keys: map<string, string>, later: seq<Named>)

  function FirstStep(p: Pass, row: Named): Pass {
    if Slug(row) in p.taken then p.(later := p.later + [row])
    else p.(taken := p.taken + {Slug(row)}, keys := p.keys[row.id := Slug(row)])
  }

  function FirstPass(rows: seq<Named>): Pass {
    if rows == [] then Pass({}, map[], []) else FirstStep(FirstPass(rows[..|rows| - 1]), rows[|rows| - 1])
  }

  function LaterStep(p: Pass, reserved: set<string>, row: Named): Pass {
    var key := Suffixed(Slug(row), FreeFrom(Slug(row), p.taken + reserved, 2));
    p.(taken := p.taken + {key}, keys := p.keys[row.id := key])
  }

  function LaterPass(p: Pass, reserved: set<string>, rows: seq<Named>): Pass {
    if rows == [] then p else LaterStep(LaterPass(p, reserved, rows[..|rows| - 1]), reserved, rows[|rows| - 1])
  }

  function KeysOf(ordered: seq<Named>): map<string, string> {
    var first := FirstPass(ordered);
    LaterPass(first, Slugs(ordered), first.later).keys
  }

  predicate ById(a: Named, b: Named) { Less(a.id, b.id) }

  function Ordered(rows: seq<Named>): seq<Named> { Sort((a, b) => ById(a, b), rows) }

  /** `connectorKeys`, with its loops and its search. */
  method Assign(rows: seq<Named>) returns (keys: map<string, string>)
    ensures keys == KeysOf(Ordered(rows))
  {
    var ordered := Ordered(rows);
    var taken: set<string>, later: seq<Named> := {}, [];
    keys := map[];
    for i := 0 to |ordered|
      invariant Pass(taken, keys, later) == FirstPass(ordered[..i])
    {
      assert ordered[..i + 1][..i] == ordered[..i];
      var base := Slug(ordered[i]);
      if base in taken {
        later := later + [ordered[i]];
      } else {
        taken := taken + {base};
        keys := keys[ordered[i].id := base];
      }
    }
    assert ordered[..|ordered|] == ordered;
    ghost var first := FirstPass(ordered);
    var reserved := Slugs(ordered);
    for i := 0 to |later|
      invariant later == first.later && Pass(taken, keys, later) == LaterPass(first, reserved, later[..i])
    {
      assert later[..i + 1][..i] == later[..i];
      var base, n := Slug(later[i]), 2;
      while Suffixed(base, n) in taken || Suffixed(base, n) in reserved
        invariant FreeFrom(base, taken + reserved, 2) == FreeFrom(base, taken + reserved, n)
        decreases |Ahead(base, taken + reserved, n)|
      {
        SearchShrinks(base, taken + reserved, n);
        n := n + 1;
      }
      taken := taken + {Suffixed(base, n)};
      keys := keys[later[i].id := Suffixed(base, n)];
    }
    assert later[..|later|] == later;
  }

  // ------------------------------------------------------------------ the proofs

  ghost predicate DistinctIds(rows: seq<Named>) {
    forall i, j :: 0 <= i < j < |rows| ==> rows[i].id != rows[j].id
  }

  ghost predicate Injective(keys: map<string, string>) {
    forall a, b :: a in keys && b in keys && keys[a] == keys[b] ==> a == b
  }

  /** Both passes: every key is taken, no two are equal. */
  ghost predicate PassOk(p: Pass) {
    Injective(p.keys) && forall id :: id in p.keys ==> p.keys[id] in p.taken
  }

  lemma IdsSnoc(rows: seq<Named>)
    requires rows != []
    ensures Ids(rows) == Ids(rows[..|rows| - 1]) + {rows[|rows| - 1].id}
    ensures Slugs(rows) == Slugs(rows[..|rows| - 1]) + {Slug(rows[|rows| - 1])}
  {
    assert rows == rows[..|rows| - 1] + [rows[|rows| - 1]];
  }

  /** The rows so far are split between those with a bare slug and those set aside. */
  ghost predicate Splits(p: Pass, ids: set<string>) {
    && p.keys.Keys + Ids(p.later) == ids && p.keys.Keys !! Ids(p.later)
    && DistinctIds(p.later)
  }

  lemma FirstStepOk(p: Pass, row: Named, ids: set<string>)
    requires PassOk(p) && Splits(p, ids) && row.id !in ids
    ensures PassOk(FirstStep(p, row)) && FirstStep(p, row).taken == p.taken + {Slug(row)}
  {
    hide SlugOf, Slug;
  }

  lemma FirstStepSplits(p: Pass, row: Named, ids: set<string>)
    requires Splits(p, ids) && row.id !in ids
    ensures Splits(FirstStep(p, row), ids + {row.id})
  {
    hide SlugOf, Slug;
    var later := p.later + [row];
    IdsSnoc(later);
    assert later[..|later| - 1] == p.later;
    forall i | 0 <= i < |p.later| ensures p.later[i].id in ids {
      assert p.later[i] in p.later && p.later[i].id in Ids(p.later);
    }
  }

  lemma {:induction false} FirstPassOk(rows: seq<Named>)
    requires DistinctIds(rows)
    ensures var p := FirstPass(rows);
            && PassOk(p) && p.taken == Slugs(rows) && Splits(p, Ids(rows))
            && |p.later| <= |rows| && |p.taken| <= |rows|
            && (forall r :: r in p.later ==> r in rows)
  {
    hide PassOk, Splits, Slug;
    if rows != [] {
      var init, row := rows[..|rows| - 1], rows[|rows| - 1];
      FirstPassOk(init);
      IdsSnoc(rows);
      FirstStepOk(FirstPass(init), row, Ids(init));
      FirstStepSplits(FirstPass(init), row, Ids(init));
    } else {
      EmptyPassOk();
    }
  }

  lemma EmptyPassOk()
    ensures PassOk(Pass({}, map[], [])) && Splits(Pass({}, map[], []), Ids([]))
  {}

  /** No earlier row has this row's slug. */
  ghost predicate FirstOfSlug(rows: seq<Named>, i: nat)
    requires i < |rows|
  {
    forall j :: 0 <= j < i ==> Slug(rows[j]) != Slug(rows[i])
  }

  ghost predicate KeptBare(p: Pass, row: Named) { row.id in p.keys && p.keys[row.id] == Slug(row) }

  lemma LastRowPlaced(rows: seq<Named>)
    requires DistinctIds(rows) && rows != []
    ensures var p, row := FirstPass(rows), rows[|rows| - 1];
            if FirstOfSlug(rows, |rows| - 1) then KeptBare(p, row) else row in p.later
  {
    hide Slug, PassOk, Splits;
    var init, row := rows[..|rows| - 1], rows[|rows| - 1];
    FirstPassOk(init);
    assert Slug(row) in Slugs(init) ==> !FirstOfSlug(rows, |rows| - 1) by {
      if Slug(row) in Slugs(init) {
        var r :| r in init && Slug(r) == Slug(row);
      }
    }
    assert !FirstOfSlug(rows, |rows| - 1) ==> Slug(row) in Slugs(init) by {
      if !FirstOfSlug(rows, |rows| - 1) {
        var j :| 0 <= j < |rows| - 1 && Slug(rows[j]) == Slug(row);
        assert init[j] in init;
      }
    }
  }

  /** The lowest id of each slug keeps the bare slug; the others have theirs searched. */
  lemma {:induction false} FirstPassBare(rows: seq<Named>, i: nat)
    requires DistinctIds(rows) && i < |rows|
    ensures var p := FirstPass(rows); if FirstOfSlug(rows, i) then KeptBare(p, rows[i]) else rows[i] in p.later
  {
    if i < |rows| - 1 {
      hide Slug;
      var init := rows[..|rows| - 1];
      FirstPassBare(init, i);
      assert init[i] == rows[i] && FirstOfSlug(init, i) == FirstOfSlug(rows, i);
      assert rows[i].id != rows[|rows| - 1].id;
    } else {
      LastRowPlaced(rows);
    }
  }

  lemma LaterStepOk(p: Pass, reserved: set<string>, row: Named)
    requires PassOk(p) && row.id !in p.keys
    ensures PassOk(LaterStep(p, reserved, row))
    ensures LaterStep(p, reserved, row).keys[row.id] !in reserved
  {
    hide Slug, Suffixed;
  }

  lemma {:induction false} LaterPassOk(p: Pass, reserved: set<string>, rows: seq<Named>)
    requires PassOk(p) && DistinctIds(rows) && p.keys.Keys !! Ids(rows)
    ensures var q := LaterPass(p, reserved, rows);
            && PassOk(q) && q.keys.Keys == p.keys.Keys + Ids(rows)
            && |q.taken| <= |p.taken| + |rows|
            && (forall id :: id in p.keys ==> q.keys[id] == p.keys[id])
            && (forall id :: id in q.keys && id !in p.keys ==> q.keys[id] !in reserved)
  {
    hide FreeFrom, Slug, Suffixed, PassOk;
    if rows != [] {
      var init, row := rows[..|rows| - 1], rows[|rows| - 1];
      IdsSnoc(rows);
      LaterPassOk(p, reserved, init);
      assert row.id !in Ids(init);
      LaterStepOk(LaterPass(p, reserved, init), reserved, row);
    }
  }

  /** A searched key: the row's slug with a suffix number of at most `most`. */
  ghost predicate Searched(p: Pass, row: Named, most: nat) {
    row.id in p.keys && exists n: nat :: 2 <= n <= most && p.keys[row.id] == Suffixed(Slug(row), n)
  }

  lemma LaterStepSearched(p: Pass, reserved: set<string>, row: Named, most: nat)
    requires 2 + |p.taken| + |reserved| <= most
    ensures Searched(LaterStep(p, reserved, row), row, most)
  {
    SearchStops(Slug(row), p.taken + reserved, 2);
    UnionSize(p.taken, reserved);
    hide FreeFrom, Slug, Suffixed;
    var n := FreeFrom(Slug(row), p.taken + reserved, 2);
    assert LaterStep(p, reserved, row).keys[row.id] == Suffixed(Slug(row), n);
  }

  lemma LaterStepKeeps(p: Pass, reserved: set<string>, row: Named, other: Named, most: nat)
    requires Searched(p, other, most) && other.id != row.id
    ensures Searched(LaterStep(p, reserved, row), other, most)
  {
    hide FreeFrom, Slug, Suffixed;
    assert LaterStep(p, reserved, row).keys[other.id] == p.keys[other.id];
  }

  /** Every searched key is the row's slug with a suffix that the number of rows bounds. */
  lemma {:induction false} LaterPassSuffixes(p: Pass, reserved: set<string>, rows: seq<Named>, row: Named, most: nat)
    requires PassOk(p) && DistinctIds(rows) && p.keys.Keys !! Ids(rows) && row in rows
    requires 2 + |p.taken| + |rows| + |reserved| <= most
    ensures Searched(LaterPass(p, reserved, rows), row, most)
  {
    hide PassOk, Searched, LaterStep;
    var init, last := rows[..|rows| - 1], rows[|rows| - 1];
    IdsSnoc(rows);
    LaterPassOk(p, reserved, init);
    if row == last {
      LaterStepSearched(LaterPass(p, reserved, init), reserved, last, most);
    } else {
      assert row in init && row.id in Ids(init) && last.id !in Ids(init);
      LaterPassSuffixes(p, reserved, init, row, most);
      LaterStepKeeps(LaterPass(p, reserved, init), reserved, last, row, most);
    }
  }

  lemma UnionSize(a: set<string>, b: set<string>)
    ensures |a + b| <= |a| + |b|
  {
    assert a + b == a + (b - a);
    Sets.SubsetSize(b - a, b);
  }

  lemma {:induction false} SlugsSize(rows: seq<Named>)
    ensures |Slugs(rows)| <= |rows|
  {
    if rows != [] {
      SlugsSize(rows[..|rows| - 1]);
      IdsSnoc(rows);
      UnionSize(Slugs(rows[..|rows| - 1]), {Slug(rows[|rows| - 1])});
    }
  }

  lemma OrderLemmas(rows: seq<Named>)
    requires DistinctIds(rows)
    ensures StrictOrder((a, b) => ById(a, b)) && TotalOn((a, b) => ById(a, b), rows)
    ensures DistinctIds(Ordered(rows)) && |Ordered(rows)| == |rows|
    ensures Ascending((a, b) => ById(a, b), Ordered(rows))
    ensures forall r :: r in Ordered(rows) <==> r in rows
  {
    var less := (a, b) => ById(a, b);
    forall x: Named ensures !less(x, x) { LessIrreflexive(x.id); }
    forall x: Named, y: Named, z: Named | less(x, y) && less(y, z)
        ensures less(x, z) { LessTransitive(x.id, y.id, z.id); }
    forall i, j | 0 <= i < |rows| && 0 <= j < |rows| && i != j
        ensures less(rows[i], rows[j]) || less(rows[j], rows[i]) {
      LessTotal(rows[i].id, rows[j].id);
    }
    SortAscends(less, rows);
    SortPermutes(less, rows);
    forall i, j | 0 <= i < j < |Ordered(rows)| ensures Ordered(rows)[i].id != Ordered(rows)[j].id {
      LessIrreflexive(Ordered(rows)[i].id);
    }
  }

  // ------------------------------------------------------------------ the theorems

  /** Every row gets a key, no two rows the same one, and each is at most 63 letters, digits and inner dashes. */
  lemma KeysAreDistinctAndWellFormed(rows: seq<Named>)
    requires DistinctIds(rows) && |rows| <= ROWS_MAX
    ensures var keys := KeysOf(Ordered(rows));
            keys.Keys == Ids(rows) && Injective(keys) && forall id :: id in keys ==> KeyOk(keys[id])
  {
    OrderLemmas(rows);
    var ordered := Ordered(rows);
    var first := FirstPass(ordered);
    FirstPassOk(ordered);
    LaterPassOk(first, Slugs(ordered), first.later);
    assert Ids(ordered) == Ids(rows);
    var keys := KeysOf(ordered);
    forall id | id in keys ensures KeyOk(keys[id]) {
      var row :| row in ordered && row.id == id;
      RowKeyOk(ordered, row);
    }
  }

  lemma RowKeyOk(ordered: seq<Named>, row: Named)
    requires DistinctIds(ordered) && row in ordered && |ordered| <= ROWS_MAX
    ensures row.id in KeysOf(ordered) && KeyOk(KeysOf(ordered)[row.id])
  {
    var first := FirstPass(ordered);
    var i :| 0 <= i < |ordered| && ordered[i] == row;
    FirstPassOk(ordered);
    LaterPassOk(first, Slugs(ordered), first.later);
    FirstPassBare(ordered, i);
    SlugIsKey(row.name);
    if row in first.later {
      var most := 2 + |first.taken| + |first.later| + |Slugs(ordered)|;
      LaterPassSuffixes(first, Slugs(ordered), first.later, row, most);
      var n: nat :| 2 <= n <= most && KeysOf(ordered)[row.id] == Suffixed(Slug(row), n);
      SlugsSize(ordered);
      assert n < Pow10(11);
      FewDigits(n, 11);
      SuffixIsKey(Slug(row), n);
    }
  }

  /**
   The lowest id of each slug keeps the bare slug, whatever the order of the input; every
   other row gets its slug with a suffix that is no row's slug.
   */
  lemma LowestIdKeepsTheSlug(rows: seq<Named>, row: Named)
    requires DistinctIds(rows) && row in rows
    ensures var keys := KeysOf(Ordered(rows));
            && row.id in keys
            && (if forall r :: r in rows && Slug(r) == Slug(row) ==>
                r == row || Less(row.id, r.id) then keys[row.id] == Slug(row)
                else keys[row.id] !in Slugs(rows) && exists n: nat :: 2 <= n && keys[row.id] == Suffixed(Slug(row), n))
  {
    OrderLemmas(rows);
    var ordered := Ordered(rows);
    var first := FirstPass(ordered);
    var i :| 0 <= i < |ordered| && ordered[i] == row;
    FirstPassOk(ordered);
    LaterPassOk(first, Slugs(ordered), first.later);
    FirstPassBare(ordered, i);
    assert Slugs(ordered) == Slugs(rows);
    LowestIsFirst(ordered, i);
    if row in first.later {
      LaterPassSuffixes(first, Slugs(ordered), first.later, row, 2 + |first.taken| + |first.later| + |Slugs(ordered)|);
      assert row.id in Ids(first.later);
    }
  }

  lemma LowestIsFirst(ordered: seq<Named>, i: nat)
    requires i < |ordered| && Ascending((a, b) => ById(a, b), ordered)
    ensures FirstOfSlug(ordered, i) <==>
            (forall r :: r in ordered && Slug(r) == Slug(ordered[i]) ==> r == ordered[i] || Less(ordered[i].id, r.id))
  {
    forall j | 0 <= j < i ensures ordered[j] != ordered[i] && !Less(ordered[i].id, ordered[j].id) {
      LessIrreflexive(ordered[i].id);
      if Less(ordered[i].id, ordered[j].id) { LessTransitive(ordered[i].id, ordered[j].id, ordered[i].id); }
    }
    if exists j :: 0 <= j < i && Slug(ordered[j]) == Slug(ordered[i]) {
      var j :| 0 <= j < i && Slug(ordered[j]) == Slug(ordered[i]);
      assert ordered[j] in ordered;
    } else {
      forall r | r in ordered && Slug(r) == Slug(ordered[i]) ensures r == ordered[i] || Less(ordered[i].id, r.id) {
        var k :| 0 <= k < |ordered| && ordered[k] == r;
        assert k >= i;
        assert k > i ==> ById(ordered[i], ordered[k]);
      }
    }
  }

  /** The keys do not depend on the order of the rows. */
  lemma OrderOfRowsIsIrrelevant(rows: seq<Named>, other: seq<Named>)
    requires DistinctIds(rows) && DistinctIds(other)
    requires forall r :: r in rows <==> r in other
    ensures KeysOf(Ordered(rows)) == KeysOf(Ordered(other))
  {
    OrderLemmas(rows);
    OrderLemmas(other);
    SortIgnoresOrder((a, b) => ById(a, b), rows, other);
  }
}
