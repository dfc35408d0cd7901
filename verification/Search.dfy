/**
 The names suggested for a misspelt tool (apps/mcp/src/search.ts): two names are as close as
 the bigrams they share, counted with multiplicity.
 */
module Search {
  import opened Text
  import opened Sorting

  function LowerChar(c: char): char { if 'A' <= c <= 'Z' then (c as int + 32) as char else c }

  /** `toLowerCase`, for ASCII names. */
  function Lower(s: string): (r: string)
    ensures |r| == |s|
  {
    if s == [] then [] else [LowerChar(s[0])] + Lower(s[1..])
  }

  function Bigrams(text: string): seq<string> {
    var lower := Lower(text);
    seq(if |lower| == 0 then 0 else |lower| - 1, at requires 0 <= at && at + 2 <= |lower| => lower[at..at + 2])
  }

  lemma {:induction false} LowerSpelled(s: string, i: nat)
    requires i < |s|
    ensures Lower(s)[i] == if 'A' <= s[i] <= 'Z' then "abcdefghijklmnopqrstuvwxyz"[s[i] as int - 65] else s[i]
  {
    if i > 0 { LowerSpelled(s[1..], i - 1); }
  }

  /** The bigrams are the pairs of neighbours in lower case, in order. */
  lemma BigramsSpelled(text: string, i: nat)
    requires i + 1 < |text|
    ensures |Bigrams(text)| == |text| - 1 && |Bigrams(text)[i]| == 2
    ensures Bigrams(text)[i][0] == if 'A' <= text[i] <= 'Z' then "abcdefghijklmnopqrstuvwxyz"[text[i] as int - 65]
        else text[i]
    ensures Bigrams(text)[i][1] == Lower(text[i + 1..])[0]
  {
    LowerSpelled(text, i);
    LowerSpelled(text, i + 1);
    LowerSpelled(text[i + 1..], 0);
  }

  /** How many bigrams two lists have in common, each as often as both have it. */
  function Common(left: seq<string>, right: seq<string>): nat {
    |multiset(left) * multiset(right)|
  }

  function Score(a: string, b: string): real {
    var left, right := Bigrams(a), Bigrams(b);
    if left == [] || right == [] then (if Lower(a) == Lower(b) then 1.0 else 0.0)
    else (2 * Common(left, right)) as real / (|left| + |right|) as real
  }

  function IndexIn(pool: seq<string>, gram: string): (at: int)
    ensures at == -1 <==> gram !in pool
    ensures at != -1 ==> 0 <= at < |pool| && pool[at] == gram
  {
    if pool == [] then -1
    else if pool[0] == gram then 0
    else
      var at := IndexIn(pool[1..], gram);
      if at == -1 then -1 else at + 1
  }

  /** Taking a shared bigram out of the pool takes one from what is common. */
  lemma TakeOne(gram: string, rest: seq<string>, pool: seq<string>, at: nat)
    requires at < |pool| && pool[at] == gram
    ensures Common([gram] + rest, pool) == 1 + Common(rest, pool[..at] + pool[at + 1..])
  {
    assert pool == pool[..at] + [gram] + pool[at + 1..];
    var p, r := multiset(pool[..at] + pool[at + 1..]), multiset(rest);
    assert multiset(pool) == p + multiset{gram};
    assert multiset([gram] + rest) == multiset{gram} + r;
    assert (multiset{gram} + r) * (p + multiset{gram}) == multiset{gram} + r * p;
  }

  lemma TakeNone(gram: string, rest: seq<string>, pool: seq<string>)
    requires gram !in pool
    ensures Common([gram] + rest, pool) == Common(rest, pool)
  {
    assert multiset([gram] + rest) == multiset{gram} + multiset(rest);
    assert (multiset{gram} + multiset(rest)) * multiset(pool) == multiset(rest) * multiset(pool);
  }

  lemma ScoreSpelled(a: string, b: string)
    ensures var left, right := Bigrams(a), Bigrams(b);
            && (left == [] <==> |a| < 2) && (right == [] <==> |b| < 2)
            && Score(a, b) == if |a| < 2 || |b| < 2 then (if Lower(a) == Lower(b) then 1.0 else 0.0)
                              else (2 * |multiset(left) * multiset(right)|) as real / (|left| + |right|) as real
  {}

  /** `similarity`: the splice loop counts what the two lists have in common. */
  method Similarity(a: string, b: string) returns (score: real)
    ensures score == Score(a, b)
    ensures var left, right := Bigrams(a), Bigrams(b);
            score == if |a| < 2 || |b| < 2 then (if Lower(a) == Lower(b) then 1.0 else 0.0)
                     else (2 * |multiset(left) * multiset(right)|) as real / (|left| + |right|) as real
  {
    ScoreSpelled(a, b);
    hide Score, Lower, Bigrams;
    var left, pool := Bigrams(a), Bigrams(b);
    if |left| == 0 || |pool| == 0 {
      return if Lower(a) == Lower(b) then 1.0 else 0.0;
    }
    var total, shared := |left| + |pool|, 0;
    assert left[0..] == left;
    for i := 0 to |left|
      invariant shared + Common(left[i..], pool) == Common(left, Bigrams(b))
    {
      assert left[i..] == [left[i]] + left[i + 1..];
      var at := IndexIn(pool, left[i]);
      if at < 0 {
        TakeNone(left[i], left[i + 1..], pool);
        continue;
      }
      TakeOne(left[i], left[i + 1..], pool, at);
      shared := shared + 1;
      pool := pool[..at] + pool[at + 1..];
    }
    assert multiset(left[|left|..]) * multiset(pool) == multiset{};
    score := (2 * shared) as real / total as real;
  }

  lemma CommonBounds(left: seq<string>, right: seq<string>)
    ensures Common(left, right) == Common(right, left)
    ensures Common(left, right) <= |left| && Common(left, right) <= |right|
    ensures Common(left, left) == |left|
    ensures Common(left, right) == |left| == |right| ==> multiset(left) == multiset(right)
  {
    var l, r := multiset(left), multiset(right);
    assert l * r == r * l && l * l == l;
    assert l == l * r + (l - l * r);
    assert r == l * r + (r - l * r);
  }

  lemma Fraction(n: nat, d: nat)
    requires 0 < d && n <= d
    ensures 0.0 <= n as real / d as real <= 1.0
    ensures n as real / d as real == 1.0 <==> n == d
    ensures n as real / d as real > 0.0 <==> n > 0
  {
    var q := n as real / d as real;
    assert q * d as real == n as real;
  }

  /** The score is symmetric, between 0 and 1, and 1 exactly for the same bigrams; names equal up to case score 1. */
  lemma ScoreIsASimilarity(a: string, b: string)
    ensures Score(a, b) == Score(b, a) && 0.0 <= Score(a, b) <= 1.0
    ensures Lower(a) == Lower(b) ==> Score(a, b) == 1.0
    ensures Bigrams(a) != [] && Bigrams(b) != [] ==>
        (Score(a, b) == 1.0 <==> multiset(Bigrams(a)) == multiset(Bigrams(b)))
    ensures Bigrams(a) != [] && Bigrams(b) != [] ==>
        (Score(a, b) > 0.0 <==> exists g :: g in Bigrams(a) && g in Bigrams(b))
  {
    var left, right := Bigrams(a), Bigrams(b);
    if left != [] && right != [] {
      CommonBounds(left, right);
      CommonBounds(right, left);
      Fraction(2 * Common(left, right), |left| + |right|);
      if Lower(a) == Lower(b) { CommonBounds(left, left); }
      if multiset(left) == multiset(right) {
        assert multiset(left) * multiset(right) == multiset(left);
        assert |multiset(left)| == |multiset(right)|;
      }
      SharedGram(left, right);
    }
  }

  lemma SharedGram(left: seq<string>, right: seq<string>)
    ensures Common(left, right) > 0 <==> exists g :: g in left && g in right
  {
    var both := multiset(left) * multiset(right);
    if |both| > 0 {
      var g :| g in both;
      assert g in multiset(left) && g in multiset(right);
      assert g in left && g in right;
    }
    forall g | g in left && g in right ensures |both| > 0 {
      assert g in multiset(left) && g in multiset(right) && both[g] > 0;
      assert both == (both - multiset{g}) + multiset{g};
    }
  }

  // ------------------------------------------------------------ closest names

  datatype Candidate = Candidate(name: string, score: real)

  function CandidateOf(wanted: string, name: string): Candidate { Candidate(name, Score(wanted, name)) }

  /** Higher scores first, equal scores by name. */
  predicate Better(a: Candidate, b: Candidate) {
    a.score > b.score || (a.score == b.score && Less(a.name, b.name))
  }

  /** `[...new Set(names)]`: each name once, at its first place. */
  function Distinct(names: seq<string>): seq<string> {
    if names == [] then []
    else
      var init := Distinct(names[..|names| - 1]);
      if names[|names| - 1] in init then init else init + [names[|names| - 1]]
  }

  function Positive(wanted: string, names: seq<string>): seq<Candidate> {
    if names == [] then []
    else
      var c, rest := CandidateOf(wanted, names[0]), Positive(wanted, names[1..]);
      if c.score > 0.0 then [c] + rest else rest
  }

  function Ranked(wanted: string, names: seq<string>): seq<Candidate> {
    Sort((a, b) => Better(a, b), Positive(wanted, Distinct(names)))
  }

  function NamesOf(candidates: seq<Candidate>): (r: seq<string>)
    ensures |r| == |candidates| && forall i :: 0 <= i < |r| ==> r[i] == candidates[i].name
  {
    if candidates == [] then [] else [candidates[0].name] + NamesOf(candidates[1..])
  }

  function ClosestNames(wanted: string, names: seq<string>, max: nat): seq<string> {
    var ranked := Ranked(wanted, names);
    NamesOf(if max < |ranked| then ranked[..max] else ranked)
  }

  lemma {:induction false} DistinctNames(names: seq<string>)
    ensures forall n :: n in Distinct(names) <==> n in names
    ensures forall i, j :: 0 <= i < j < |Distinct(names)| ==> Distinct(names)[i] != Distinct(names)[j]
  {
    if names != [] {
      DistinctNames(names[..|names| - 1]);
      assert names == names[..|names| - 1] + [names[|names| - 1]];
    }
  }

  lemma {:induction false} PositiveIs(wanted: string, names: seq<string>)
    requires forall i, j :: 0 <= i < j < |names| ==> names[i] != names[j]
    ensures forall c :: c in Positive(wanted, names) <==>
        c.name in names && c == CandidateOf(wanted, c.name) && c.score > 0.0
    ensures forall i, j :: 0 <= i < j < |Positive(wanted, names)| ==>
        Positive(wanted, names)[i].name != Positive(wanted, names)[j].name
  {
    hide Score;
    if names != [] {
      var rest := Positive(wanted, names[1..]);
      PositiveIs(wanted, names[1..]);
      assert names == [names[0]] + names[1..];
      forall i | 0 <= i < |rest| ensures rest[i].name != names[0] {
        assert rest[i] in rest;
      }
    }
  }

  lemma BetterOrders(s: seq<Candidate>)
    requires forall i, j :: 0 <= i < j < |s| ==> s[i].name != s[j].name
    ensures StrictOrder((a, b) => Better(a, b)) && TotalOn((a, b) => Better(a, b), s)
  {
    var less := (a, b) => Better(a, b);
    forall x: Candidate ensures !less(x, x) { LessIrreflexive(x.name); }
    forall x: Candidate, y: Candidate, z: Candidate | less(x, y) && less(y, z) ensures less(x, z) {
      if Less(x.name, y.name) && Less(y.name, z.name) { LessTransitive(x.name, y.name, z.name); }
    }
    forall i, j | 0 <= i < |s| && 0 <= j < |s| && i != j ensures less(s[i], s[j]) || less(s[j], s[i]) {
      LessTotal(s[i].name, s[j].name);
    }
  }

  lemma RankedIs(wanted: string, names: seq<string>)
    ensures Ascending((a, b) => Better(a, b), Ranked(wanted, names))
    ensures forall c :: c in Ranked(wanted, names) <==>
        c.name in names && c == CandidateOf(wanted, c.name) && c.score > 0.0
  {
    var distinct := Distinct(names);
    DistinctNames(names);
    PositiveIs(wanted, distinct);
    BetterOrders(Positive(wanted, distinct));
    SortAscends((a, b) => Better(a, b), Positive(wanted, distinct));
    SortPermutes((a, b) => Better(a, b), Positive(wanted, distinct));
  }

  /** `a` is suggested before `b`: the higher score first, equal scores by name. */
  lemma BetterSpelled(wanted: string, a: string, b: string)
    ensures Better(CandidateOf(wanted, a), CandidateOf(wanted, b)) <==>
              Score(wanted, a) > Score(wanted, b) || (Score(wanted, a) == Score(wanted, b) && Less(a, b))
  {
    hide Score, Less;
  }

  /**
   The suggestions are distinct given names with a positive score, the highest score first and equal
   scores by name; a name with a positive score is left out only when `max` are there that each have
   a higher score, or the same score and a lower name.
   */
  lemma ClosestAreTheBest(wanted: string, names: seq<string>, max: nat)
    ensures var r := ClosestNames(wanted, names, max);
            && |r| <= max
            && (forall i :: 0 <= i < |r| ==> r[i] in names && Score(wanted, r[i]) > 0.0)
            && (forall i, j :: 0 <= i < j < |r| ==>
                  Score(wanted, r[i]) > Score(wanted, r[j])
                  || (Score(wanted, r[i]) == Score(wanted, r[j]) && Less(r[i], r[j])))
            && (forall n :: n in names && Score(wanted, n) > 0.0 && n !in r ==>
                  |r| == max && forall i :: 0 <= i < |r| ==>
                    Score(wanted, r[i]) > Score(wanted, n)
                        || (Score(wanted, r[i]) == Score(wanted, n) && Less(r[i], n)))
  {
    ClosestAreBetter(wanted, names, max);
    var r := ClosestNames(wanted, names, max);
    hide Score, Better, Less, ClosestNames, CandidateOf;
    forall i, j | 0 <= i < j < |r|
      ensures Score(wanted, r[i]) > Score(wanted, r[j])
              || (Score(wanted, r[i]) == Score(wanted, r[j]) && Less(r[i], r[j]))
    {
      BetterSpelled(wanted, r[i], r[j]);
    }
    forall n, i | n in names && Score(wanted, n) > 0.0 && n !in r && 0 <= i < |r|
      ensures Score(wanted, r[i]) > Score(wanted, n) || (Score(wanted, r[i]) == Score(wanted, n) && Less(r[i], n))
    {
      BetterSpelled(wanted, r[i], n);
    }
  }

  lemma ClosestAreBetter(wanted: string, names: seq<string>, max: nat)
    ensures var r := ClosestNames(wanted, names, max);
            && |r| <= max
            && (forall i :: 0 <= i < |r| ==> r[i] in names && Score(wanted, r[i]) > 0.0)
            && (forall i, j :: 0 <= i < j < |r| ==> Better(CandidateOf(wanted, r[i]), CandidateOf(wanted, r[j])))
            && (forall n :: n in names && Score(wanted, n) > 0.0 && n !in r ==>
                  |r| == max && forall i :: 0 <= i < |r| ==> Better(CandidateOf(wanted, r[i]), CandidateOf(wanted, n)))
  {
    RankedIs(wanted, names);
    var ranked, r := Ranked(wanted, names), ClosestNames(wanted, names, max);
    FrontOf(wanted, names, max);
    hide Score, Better, Ranked, ClosestNames, CandidateOf;
    forall i | 0 <= i < |r|
        ensures ranked[i] == CandidateOf(wanted, r[i]) && r[i] in names && Score(wanted, r[i]) > 0.0 {
      assert ranked[i] in ranked;
      ScoreOfCandidate(wanted, r[i]);
    }
    forall n | n in names && Score(wanted, n) > 0.0 && n !in r
      ensures |r| == max && forall i :: 0 <= i < |r| ==> Better(CandidateOf(wanted, r[i]), CandidateOf(wanted, n))
    {
      var c := CandidateOf(wanted, n);
      ScoreOfCandidate(wanted, n);
      assert c in ranked;
      var k :| 0 <= k < |ranked| && ranked[k] == c;
      assert forall i :: 0 <= i < |r| ==> ranked[i].name == r[i];
    }
  }

  lemma ScoreOfCandidate(wanted: string, name: string)
    ensures CandidateOf(wanted, name).name == name && CandidateOf(wanted, name).score == Score(wanted, name)
  {}

  lemma FrontOf(wanted: string, names: seq<string>, max: nat)
    ensures var ranked, r := Ranked(wanted, names), ClosestNames(wanted, names, max);
            |r| == (if max < |ranked| then max else |ranked|) && forall i :: 0 <= i < |r| ==> r[i] == ranked[i].name
  {
    hide Ranked;
  }

  /** The suggestions depend on which names are given, not on their order or repetition. */
  lemma ClosestIgnoreOrder(wanted: string, names: seq<string>, other: seq<string>, max: nat)
    requires forall n :: n in names <==> n in other
    ensures ClosestNames(wanted, names, max) == ClosestNames(wanted, other, max)
  {
    RankedIs(wanted, names);
    RankedIs(wanted, other);
    BetterOrders([]);
    AscendingUnique((a, b) => Better(a, b), Ranked(wanted, names), Ranked(wanted, other));
  }
}
