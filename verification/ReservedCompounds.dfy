/**
  Which compounds of the shipped words are reserved, exactly. A join that forms `rn` is folded to
  `m` across the two names, and no shipped word fits over that letter.
 */
module ReservedCompounds {
  import opened Common
  import opened NameSegmentation
  import opened ReservedNames
  import opened ReservedDictionary
  import opened ListedSkeletons

  // ----- a letter that no word covers

  /** The word k, laid over s so that its position j falls on position d. */
  predicate Covers(s: string, k: string, d: nat, j: nat) {
    j < |k| && j <= d && d - j + |k| <= |s| && s[d - j..d - j + |k|] == k
  }

  lemma WordCovers(s: string, p: Piece, d: nat)
    requires p.from <= d < p.end <= |s|
    ensures Covers(s, s[p.from..p.end], d, d - p.from)
  {
  }

  /** A hop from at or before an uncovered position ends at or before it. */
  lemma HopStops(s: string, words: set<string>, d: nat, start: nat, p: Piece)
    requires d < |s| && forall k, j: nat :: k in words ==> !Covers(s, k, d, j)
    requires start <= d && Hop(s, words, start, p)
    ensures p.end <= d
  {
    if d < p.end {
      WordCovers(s, p, d);
    }
  }

  /** Where no word covers some position, no chain of words passes it. */
  lemma {:induction false} NoChainPasses(s: string, words: set<string>, d: nat, pieces: seq<Piece>)
    requires d < |s| && forall k, j: nat :: k in words ==> !Covers(s, k, d, j)
    requires Chain(s, words, pieces)
    ensures EndOf(pieces) <= d
  {
    if pieces != [] {
      var init, p := pieces[..|pieces| - 1], pieces[|pieces| - 1];
      DropLast(s, words, pieces);
      NoChainPasses(s, words, d, init);
      HopStops(s, words, d, EndOf(init), p);
    }
  }

  /** What precedes the m of a bridged join: the rest of a title, with or without its r. */
  predicate Telling(x: string) {
    |x| >= 4 && (x[|x| - 1] == 'r' || x[|x| - 1] == 'o' || x[|x| - 1] == 'e') && x[|x| - 4] != 'y'
  }

  /** What follows a bridged join: m and the start of a word in n, which may have lost its n. */
  predicate TailLike(t: string) {
    && t != "" && t[0] == 'm'
    && (|t| > 1 ==>
          || t[1] == 'n'
          || (t[1] == 'e' && (|t| > 2 ==> t[2] == 'w'))
          || (t[1] == 'o' && (|t| > 2 ==> t[2] == 'r') && (|t| > 3 ==> t[3] == 'e')))
  }

  lemma CoverAgrees(s: string, k: string, d: nat, j: nat)
    requires Covers(s, k, d, j)
    ensures k[j] == s[d] && forall i :: 0 <= i < |k| ==> k[i] == s[d - j + i]
  {
    assert forall i :: 0 <= i < |k| ==> k[i] == s[d - j..d - j + |k|][i];
  }

  lemma ClashForbids(x: string, tail: string, k: string, j: nat)
    requires Telling(x) && TailLike(tail) && AllClash(k)
    ensures !Covers(x + tail, k, |x|, j)
  {
    if Covers(x + tail, k, |x|, j) {
      CoverAgrees(x + tail, k, |x|, j);
    }
  }

  lemma BridgedDoesNotSplit(x: string, tail: string, P: set<string>, F: set<string>)
    requires Telling(x) && TailLike(tail) && AllListed(P + F)
    ensures !Splits(x + tail, P, F)
  {
    forall k, j: nat | k in P + F ensures !Covers(x + tail, k, |x|, j) {
      ClashForbids(x, tail, k, j);
    }
    if Splits(x + tail, P, F) {
      var pieces: seq<Piece> :| Chain(x + tail, P + F, pieces) && EndOf(pieces) == |x + tail| &&
          HasWord(x + tail, P, pieces);
      NoChainPasses(x + tail, P + F, |x|, pieces);
    }
  }

  // ----- the skeleton of a bridged join

  /** Pair folding leaves a leading n alone. */
  lemma NFold(cw: string)
    requires StartsWith(cw, 'n')
    ensures FoldPairs(cw) == "n" + FoldPairs(cw[1..])
  {
    FoldAfterN(cw, 'r', 'n', 'm');
    FoldAfterN(FoldPair(cw, 'r', 'n', 'm'), 'v', 'v', 'w');
  }

  lemma FoldAfterN(s: string, a: char, b: char, m: char)
    requires StartsWith(s, 'n') && a != 'n'
    ensures FoldPair(s, a, b, m) == "n" + FoldPair(s[1..], a, b, m)
    ensures FoldPair(s, a, b, m)[1..] == FoldPair(s[1..], a, b, m)
  {
    if |s| == 1 { assert s == "n"; }
  }

  /** The letters behind a leading c, collapsed: the first of them may merge with c. */
  function Behind(g: string, c: char): string {
    CollapseEnds(g);
    if StartsWith(g, c) then Collapse(g)[1..] else Collapse(g)
  }

  lemma CollapseBehind(c: char, g: string)
    ensures FoldSingles(Collapse([c] + g)) == [Lookalike(c)] + FoldSingles(Behind(g, c))
  {
    CollapseEnds(g);
    CollapseJoins([c], g);
    FoldSinglesJoins([c], Behind(g, c));
  }

  /** The first letter of a folded text shows in its skeleton. */
  lemma FoldedStarts(g: string, c: char)
    requires StartsWith(g, c) && Lookalike(c) == c
    ensures StartsWith(FoldSingles(Collapse(g)), c)
  {
    CollapseEnds(g);
  }

  /** p follows the n and q follows the m. */
  lemma TailFollows(p: string, q: string)
    requires NLike("n" + p) && (q == p || StartsWith(q, 'n'))
    ensures TailLike("m" + q)
  {
    assert forall i :: 0 <= i < |p| ==> ("n" + p)[i + 1] == p[i];
    assert forall i :: 0 <= i < |q| ==> ("m" + q)[i + 1] == q[i];
  }

  lemma NotMBehindN(p: string)
    requires NLike("n" + p)
    ensures !StartsWith(p, 'm')
  {
    assert p != "" ==> ("n" + p)[1] == p[0];
  }

  /** Behind n and behind m stands the same, unless g starts with one of them. */
  lemma BehindNOrM(g: string)
    ensures var p, q := FoldSingles(Behind(g, 'n')), FoldSingles(Behind(g, 'm'));
            q == p || StartsWith(q, 'n') || StartsWith(p, 'm')
  {
    if StartsWith(g, 'n') { FoldedStarts(g, 'n'); }
    if StartsWith(g, 'm') { FoldedStarts(g, 'm'); }
  }

  lemma NAndMBefore(g: string)
    ensures FoldSingles(Collapse("n" + g)) == "n" + FoldSingles(Behind(g, 'n'))
    ensures FoldSingles(Collapse("m" + g)) == "m" + FoldSingles(Behind(g, 'm'))
  {
    CollapseBehind('n', g);
    CollapseBehind('m', g);
  }

  /** If n before g gives a word in n, then m before g gives the tail of a bridged join. */
  lemma TailOf(g: string, k: string, t: string)
    requires k == FoldSingles(Collapse("n" + g)) && t == FoldSingles(Collapse("m" + g)) && NLike(k)
    ensures TailLike(t)
  {
    NAndMBefore(g);
    TailOfBehind(g);
  }

  lemma TailOfBehind(g: string)
    requires NLike("n" + FoldSingles(Behind(g, 'n')))
    ensures TailLike("m" + FoldSingles(Behind(g, 'm')))
  {
    var p, q := FoldSingles(Behind(g, 'n')), FoldSingles(Behind(g, 'm'));
    BehindNOrM(g);
    NotMBehindN(p);
    TailFollows(p, q);
  }

  lemma BridgedFold(cu: string, cw: string) returns (a: string)
    requires EndsIn(cu, 'r') && StartsWith(cw, 'n')
    ensures FoldPairs(cu) == a + "r" && FoldPairs(cu + cw) == a + "m" + FoldPairs(cw[1..])
  {
    var f := FoldPair(cu, 'r', 'n', 'm');
    FoldPairEnds(cu, 'r', 'n', 'm', 'r');
    FoldAcross(cu, cw, 'r', 'n', 'm');
    var init, rest := f[..|f| - 1], FoldPair(cw[1..], 'r', 'n', 'm');
    assert f == init + "r" + "";
    SealedFold(init, "m", rest);
    SealedFold(init, "r", "");
    a := FoldPair(init, 'v', 'v', 'w');
  }

  /** A skeleton that ends like a title: o or e before its r, and no y further up. */
  predicate TitleEnd(y: string) {
    && |y| >= 5 && y[|y| - 1] == 'r' && (y[|y| - 2] == 'o' || y[|y| - 2] == 'e')
    && y[|y| - 4] != 'y' && y[|y| - 5] != 'y'
  }

  lemma BeforeTheR(a: string)
    ensures var x, y := FoldSingles(Collapse(a)), FoldSingles(Collapse(a + "r")); y == x || y == x + "r"
  {
    CollapseR(a);
    FoldSinglesJoins(Collapse(a), "r");
  }

  lemma CollapseR(a: string)
    ensures Collapse(a + "r") == Collapse(a) || Collapse(a + "r") == Collapse(a) + "r"
  {
    CollapseJoins(a, "r");
  }

  lemma TitleTells(x: string, y: string)
    requires TitleEnd(y) && (y == x || y == x + "r")
    ensures Telling(x)
  {
    if y == x + "r" {
      assert forall i :: 0 <= i < |x| ==> y[i] == x[i];
    }
  }

  /** Behind a title an m does not merge with what precedes it. */
  lemma NoMergeBehindTitle(a: string, m: string)
    requires Telling(FoldSingles(Collapse(a))) && StartsWith(m, 'm')
    ensures Collapse(a + m) == Collapse(a) + Collapse(m)
  {
    CollapseJoins(a, m);
    CollapseEnds(a);
  }

  lemma BridgedText(v: string, cw: string, g: string, a: string)
    requires Compact(v + cw) == v + cw && Telling(FoldSingles(Collapse(a))) && FoldPairs(v + cw) == a + "m" + g
    ensures Skeleton(v + cw) == FoldSingles(Collapse(a)) + FoldSingles(Collapse("m" + g))
  {
    assert a + "m" + g == a + ("m" + g);
    NoMergeBehindTitle(a, "m" + g);
    FoldSinglesJoins(Collapse(a), Collapse("m" + g));
  }

  /** A second name, compact, that reads like a word in n. */
  predicate ReadsN(cw: string) {
    Compact(cw) == cw && StartsWith(cw, 'n') && NLike(Skeleton(cw))
  }

  /** A first name, compact, that ends in r and reads like the end of a title. */
  predicate ReadsTitle(v: string) {
    Compact(v) == v && EndsIn(v, 'r') && TitleEnd(Skeleton(v))
  }

  /** What stands before the r of a title, folded, is telling once it is collapsed. */
  lemma BeforeTheTitleEnds(v: string, cw: string) returns (a: string)
    requires ReadsTitle(v) && StartsWith(cw, 'n')
    ensures FoldPairs(v + cw) == a + "m" + FoldPairs(cw[1..]) && Telling(FoldSingles(Collapse(a)))
  {
    a := BridgedFold(v, cw);
    BeforeTheR(a);
    TitleTells(FoldSingles(Collapse(a)), Skeleton(v));
  }

  lemma BehindTheJoin(cw: string)
    requires ReadsN(cw)
    ensures TailLike(FoldSingles(Collapse("m" + FoldPairs(cw[1..]))))
  {
    NFold(cw);
    var g := FoldPairs(cw[1..]);
    TailOf(g, Skeleton(cw), FoldSingles(Collapse("m" + g)));
  }

  /** The skeleton of the two names joined has the m right behind the title. */
  lemma BridgedSkeleton(v: string, cw: string) returns (x: string, tail: string)
    requires ReadsTitle(v) && ReadsN(cw)
    ensures Skeleton(v + cw) == x + tail && Telling(x) && TailLike(tail)
  {
    var g := FoldPairs(cw[1..]);
    var a := BeforeTheTitleEnds(v, cw);
    x, tail := FoldSingles(Collapse(a)), FoldSingles(Collapse("m" + g));
    BehindTheJoin(cw);
    CompactPair(v, cw);
    BridgedText(v, cw, g, a);
  }

  lemma CompactPair(v: string, cw: string)
    requires Compact(v) == v && Compact(cw) == cw
    ensures Compact(v + cw) == v + cw
  {
    CompactJoins(v, cw);
  }

  // ----- names that end in a title

  predicate EndsWith(x: string, k: string) {
    |k| <= |x| && x[|x| - |k|..] == k
  }

  /** The last word of a skeleton that splits. */
  lemma LastWord(x: string, words: set<string>) returns (k: string)
    requires Reaches(x, words, |x|) && x != ""
    ensures k in words && EndsWith(x, k)
  {
    var pieces: seq<Piece> :| Chain(x, words, pieces) && EndOf(pieces) == |x|;
    DropLast(x, words, pieces);
    var p := pieces[|pieces| - 1];
    k := x[p.from..p.end];
    assert x[|x| - |k|..] == k;
  }

  lemma TitledEnd(x: string, k: string)
    requires EndsWith(x, k) && Titled(k)
    ensures TitleEnd(x)
  {
    assert forall i :: 0 <= i < |k| ==> k[i] == x[|x| - |k| + i];
  }

  lemma {:induction false} LeadingDigitsSplit(c: string) returns (d: string)
    ensures c == d + DropLeadingDigits(c) && AllDigits(d)
    ensures DropLeadingDigits(c) == "" || !Digit(DropLeadingDigits(c)[0])
  {
    if c != "" && Digit(c[0]) {
      var rest := LeadingDigitsSplit(c[1..]);
      d := [c[0]] + rest;
      assert c == [c[0]] + c[1..];
    } else {
      d := "";
    }
  }

  lemma {:induction false} CollapseKeepsDigits(d: string)
    requires AllDigits(d)
    ensures AllDigits(Collapse(d))
  {
    if |d| >= 2 {
      CollapseKeepsDigits(d[1..]);
    }
  }

  lemma DigitsAreNotSolid(d: string)
    requires AllDigits(d)
    ensures Compact(d) == d && FoldPairs(d) == d && forall i :: 0 <= i < |Skeleton(d)| ==> !Solid(Skeleton(d)[i])
  {
    CompactDigits(d);
    NoPairNoFold(d, 'r', 'n', 'm');
    NoPairNoFold(d, 'v', 'v', 'w');
    CollapseKeepsDigits(d);
  }

  /** Dropping x from the front of j leaves the title, because x holds no solid letter. */
  lemma TitleSurvives(x: string, y: string, j: string, k: string)
    requires (j == x + y || (y != "" && j == x + y[1..])) && EndsWith(j, k) && Titled(k)
    requires forall i :: 0 <= i < |x| ==> !Solid(x[i])
    ensures TitleEnd(y)
  {
    var p := if Solid(k[0]) then 0 else 1;
    assert forall i :: 0 <= i < |k| ==> k[i] == j[|j| - |k| + i];
    assert Solid(j[|j| - |k| + p]);
    assert |x| <= |j| - |k| + p;
    assert y[|y| - 1] == j[|j| - 1] && y[|y| - 2] == j[|j| - 2];
    assert y[|y| - 4] == j[|j| - 4] && y[|y| - 5] == j[|j| - 5];
  }

  /** A compact name that ends in r, with its leading digits d split off. */
  lemma WithoutDigits(cu: string) returns (d: string)
    requires Compact(cu) == cu && EndsIn(cu, 'r')
    ensures var v := DropLeadingDigits(cu);
            cu == d + v && AllDigits(d) && Compact(v) == v && EndsIn(v, 'r')
  {
    var v := DropLeadingDigits(cu);
    d := LeadingDigitsSplit(cu);
    CompactDigits(d);
    CompactJoins(d, v);
    assert cu[|d|..] == v;
  }

  lemma TitleWithoutDigits(cu: string, k: string)
    requires Compact(cu) == cu && EndsIn(cu, 'r') && EndsWith(Skeleton(cu), k) && Titled(k)
    ensures var v := DropLeadingDigits(cu);
            Compact(v) == v && EndsIn(v, 'r') && TitleEnd(Skeleton(v))
  {
    var d := WithoutDigits(cu);
    TitleBehindDigits(d, DropLeadingDigits(cu), k);
  }

  lemma TitleBehindDigits(d: string, v: string, k: string)
    requires AllDigits(d) && EndsWith(Skeleton(d + v), k) && Titled(k) && Compact(v) == v && v != ""
    ensures TitleEnd(Skeleton(v))
  {
    DigitsAreNotSolid(d);
    SkeletonJoins(d, v);
    TitleSurvives(Skeleton(d), Skeleton(v), Skeleton(d + v), k);
  }

  // ----- exactly which compounds are reserved

  lemma {:induction false} TrailingDigitsSplit(c: string) returns (d: string)
    ensures c == DropTrailingDigits(c) + d && AllDigits(d)
    ensures DropTrailingDigits(c) == "" || !Digit(DropTrailingDigits(c)[|DropTrailingDigits(c)| - 1])
  {
    if c != "" && Digit(c[|c| - 1]) {
      var rest := TrailingDigitsSplit(c[..|c| - 1]);
      d := rest + [c[|c| - 1]];
      assert c == c[..|c| - 1] + [c[|c| - 1]];
    } else {
      d := "";
    }
  }

  /** A name in n without its trailing digits still reads like one. */
  lemma NWithoutDigits(cw: string)
    requires ReadsN(cw)
    ensures ReadsN(DropTrailingDigits(cw))
  {
    var t := DropTrailingDigits(cw);
    var d := TrailingDigitsSplit(cw);
    assert t != "" ==> t[0] == cw[0];
    NBeforeDigits(t, d);
  }

  lemma NBeforeDigits(t: string, d: string)
    requires AllDigits(d) && StartsWith(t, 'n') && Compact(t + d) == t + d && NLike(Skeleton(t + d))
    ensures ReadsN(t)
  {
    CompactDigits(d);
    CompactJoins(t, d);
    assert (t + d)[..|t|] == t && (Compact(t) + d)[..|t|] == Compact(t);
    SkeletonJoins(t, d);
    NStays(t);
    NLikePrefix(Skeleton(t), Skeleton(t + d));
  }

  lemma NStays(t: string)
    requires Compact(t) == t && StartsWith(t, 'n')
    ensures StartsWith(Skeleton(t), 'n')
  {
    NFold(t);
    CollapseEnds(FoldPairs(t));
  }

  lemma NLikePrefix(x: string, k: string)
    requires x != "" && x <= k && NLike(k)
    ensures NLike(x)
  {
  }

  /** The readings of two joined names: each with or without its outer digits. */
  lemma VariantsOfCompound(cu: string, cw: string)
    requires Compact(cu) == cu && EndsIn(cu, 'r') && StartsWith(cw, 'n')
    ensures var l, t := DropLeadingDigits(cu), DropTrailingDigits(cw);
            && DropTrailingDigits(cu + cw) == cu + t
            && DropLeadingDigits(cu + cw) == l + cw
            && DropTrailingDigits(l + cw) == l + t
  {
    var d := WithoutDigits(cu);
    DigitsInFront(d, DropLeadingDigits(cu), cw);
    DigitsBehind(cu, cw);
    DigitsBehind(DropLeadingDigits(cu), cw);
  }

  lemma DigitsBehind(a: string, cw: string)
    requires StartsWith(cw, 'n')
    ensures DropTrailingDigits(a + cw) == a + DropTrailingDigits(cw)
  {
    var t := DropTrailingDigits(cw);
    var d := TrailingDigitsSplit(cw);
    assert a + cw == a + t + d;
    TrailingDigitsDrop(a + t, d);
  }

  lemma DigitsInFront(d: string, v: string, cw: string)
    requires AllDigits(d) && v != "" && v == DropLeadingDigits(d + v)
    ensures DropLeadingDigits(d + v + cw) == v + cw
  {
    var d' := LeadingDigitsSplit(d + v);
    assert d + v + cw == d + (v + cw);
    LeadingDigitsDrop(d, v + cw);
  }

  lemma ReadingEscapes(v: string, cw: string, P: set<string>, F: set<string>)
    requires ReadsTitle(v) && ReadsN(cw) && AllListed(P + F)
    ensures !Splits(Skeleton(v + cw), P, F)
  {
    var x, tail := BridgedSkeleton(v, cw);
    BridgedDoesNotSplit(x, tail, P, F);
  }

  lemma FourReadings(cu: string, cw: string)
    requires Compact(cu) == cu && EndsIn(cu, 'r') && Compact(cw) == cw && StartsWith(cw, 'n')
    ensures var l, t := DropLeadingDigits(cu), DropTrailingDigits(cw);
            Variants(cu + cw) <= {cu + cw, cu + t, l + cw, l + t}
  {
    CompactJoins(cu, cw);
    VariantsOfCompound(cu, cw);
  }

  lemma NoReadingSplits(name: string, a: string, b: string, c: string, d: string, P: set<string>, F: set<string>)
    requires Variants(name) <= {a, b, c, d}
    requires !Splits(Skeleton(a), P, F) && !Splits(Skeleton(b), P, F)
    requires !Splits(Skeleton(c), P, F) && !Splits(Skeleton(d), P, F)
    ensures !Reserved(name, P, F)
  {
  }

  /** Neither with nor without its trailing digits does the second name save the first. */
  lemma EscapesBoth(v: string, cw: string, P: set<string>, F: set<string>)
    requires ReadsTitle(v) && ReadsN(cw) && AllListed(P + F)
    ensures !Splits(Skeleton(v + cw), P, F) && !Splits(Skeleton(v + DropTrailingDigits(cw)), P, F)
  {
    NWithoutDigits(cw);
    ReadingEscapes(v, cw, P, F);
    ReadingEscapes(v, DropTrailingDigits(cw), P, F);
  }

  lemma NoneOfFourSplits(cu: string, cw: string, P: set<string>, F: set<string>)
    requires Compact(cu) == cu && EndsIn(cu, 'r') && Compact(cw) == cw && StartsWith(cw, 'n')
    requires !Splits(Skeleton(cu + cw), P, F) && !Splits(Skeleton(cu + DropTrailingDigits(cw)), P, F)
    requires !Splits(Skeleton(DropLeadingDigits(cu) + cw), P, F)
    requires !Splits(Skeleton(DropLeadingDigits(cu) + DropTrailingDigits(cw)), P, F)
    ensures !Reserved(cu + cw, P, F)
  {
    var l, t := DropLeadingDigits(cu), DropTrailingDigits(cw);
    FourReadings(cu, cw);
    NoReadingSplits(cu + cw, cu + cw, cu + t, l + cw, l + t, P, F);
  }

  lemma SameReadings(u: string, v: string, P: set<string>, F: set<string>)
    requires !Reserved(Compact(u) + Compact(v), P, F)
    ensures !Reserved(u + v, P, F)
  {
    CompactTwice(u);
    CompactTwice(v);
    CompactJoins(u, v);
    CompactJoins(Compact(u), Compact(v));
    assert Variants(u + v) == Variants(Compact(u) + Compact(v));
  }

  /** The name reads like a title, as typed and without its leading digits. */
  lemma TitleReadings(u: string, k: string)
    requires EndsIn(Compact(u), 'r') && EndsWith(Skeleton(u), k) && Titled(k)
    ensures ReadsTitle(Compact(u)) && ReadsTitle(DropLeadingDigits(Compact(u)))
  {
    CompactTwice(u);
    TitledEnd(Skeleton(u), k);
    TitleWithoutDigits(Compact(u), k);
  }

  lemma NReading(v: string)
    requires StartsWith(Compact(v), 'n') && NLike(Skeleton(v))
    ensures ReadsN(Compact(v))
  {
    CompactTwice(v);
  }

  lemma BridgedEscapes(u: string, v: string, k: string, P: set<string>, F: set<string>)
    requires EndsIn(Compact(u), 'r') && StartsWith(Compact(v), 'n') && NLike(Skeleton(v))
    requires EndsWith(Skeleton(u), k) && Titled(k) && AllListed(P + F)
    ensures !Reserved(u + v, P, F)
  {
    var cu, cv := Compact(u), Compact(v);
    TitleReadings(u, k);
    NReading(v);
    EscapesBoth(cu, cv, P, F);
    EscapesBoth(DropLeadingDigits(cu), cv, P, F);
    NoneOfFourSplits(cu, cv, P, F);
    SameReadings(u, v, P, F);
  }

  /** The last letter of a folded name shows in its skeleton. */
  lemma FoldedEnds(f: string, c: char)
    requires EndsIn(f, c) && Lookalike(c) == c
    ensures EndsIn(FoldSingles(Collapse(f)), c)
  {
    LastLetter(f);
  }

  lemma UncleanEnds(cu: string, cw: string)
    requires !JoinsCleanly(cu, cw)
    ensures var x := FoldSingles(Collapse(FoldPairs(cu)));
            EndsIn(x, 'v') || (EndsIn(x, 'r') && EndsIn(cu, 'r') && StartsWith(cw, 'n'))
  {
    FoldPairsTail(cu);
    var f := FoldPairs(cu);
    if EndsIn(f, 'v') { FoldedEnds(f, 'v'); } else { FoldedEnds(f, 'r'); }
  }

  /** A name that splits never ends in v, and its last word is a title if it ends in r. */
  lemma LastWordIsListed(x: string, words: set<string>) returns (k: string)
    requires AllListed(words) && Reaches(x, words, |x|) && x != ""
    ensures EndsWith(x, k) && !EndsIn(x, 'v') && (EndsIn(x, 'r') ==> Titled(k))
  {
    k := LastWord(x, words);
    assert Listed(k);
    assert k[|k| - 1] == x[|x| - 1];
  }

  /** An unclean join of a name that splits: its last word is a title, and the next word starts with n. */
  lemma UncleanJoin(u: string, cw: string, words: set<string>) returns (k: string)
    requires AllListed(words) && Reaches(Skeleton(u), words, |Skeleton(u)|) && !JoinsCleanly(Compact(u), cw)
    ensures EndsIn(Compact(u), 'r') && StartsWith(cw, 'n') && EndsWith(Skeleton(u), k) && Titled(k)
  {
    UncleanEnds(Compact(u), cw);
    k := LastWordIsListed(Skeleton(u), words);
  }

  /** The first letter of a name in n shows in its skeleton. */
  lemma NShows(v: string)
    requires StartsWith(Compact(v), 'n')
    ensures StartsWith(Skeleton(v), 'n')
  {
    CompactTwice(v);
    NStays(Compact(v));
  }

  /**
    A name that splits into shipped words and fillers is not reserved together with a shipped word
    that it does not join cleanly, whatever the spelling of both.
   */
  lemma BridgedCompoundEscapes(u: string, v: string)
    requires Reaches(Skeleton(u), RESERVED_SKELETONS + FILLER_SKELETONS, |Skeleton(u)|)
    requires Skeleton(v) in RESERVED_SKELETONS && !JoinsCleanly(Compact(u), Compact(v))
    ensures !Reserved(u + v, RESERVED_SKELETONS, FILLER_SKELETONS)
  {
    ShippedAreListed();
    var k := UncleanJoin(u, Compact(v), RESERVED_SKELETONS + FILLER_SKELETONS);
    NShows(v);
    assert Listed(Skeleton(v));
    BridgedEscapes(u, v, k, RESERVED_SKELETONS, FILLER_SKELETONS);
  }

  lemma FoldPairsTail(c: string)
    ensures EndsIn(c, 'r') ==> EndsIn(FoldPairs(c), 'r')
  {
    FoldPairEnds(c, 'r', 'n', 'm', 'r');
    FoldPairEnds(FoldPair(c, 'r', 'n', 'm'), 'v', 'v', 'w', 'r');
  }

  /**
    The exact condition: a name that splits into shipped words and fillers followed by a shipped
    word, whatever the spelling of both, is reserved if and only if neither `rn` nor `vv` forms
    across the join.
   */
  lemma CompoundIsReservedIff(u: string, v: string)
    requires Reaches(Skeleton(u), RESERVED_SKELETONS + FILLER_SKELETONS, |Skeleton(u)|)
    requires Skeleton(v) in RESERVED_SKELETONS
    ensures Reserved(u + v, RESERVED_SKELETONS, FILLER_SKELETONS) <==> JoinsCleanly(Compact(u), Compact(v))
  {
    if JoinsCleanly(Compact(u), Compact(v)) {
      ShippedAreListed();
      assert Listed(Skeleton(v));
      CompoundIsReserved(u, v, RESERVED_SKELETONS, FILLER_SKELETONS);
    } else {
      BridgedCompoundEscapes(u, v);
    }
  }

  /** In particular for any two shipped words. */
  lemma PairIsReservedIff(first: string, second: string)
    requires first in DEFAULT_RESERVED && second in DEFAULT_RESERVED
    ensures Reserved(first + second, RESERVED_SKELETONS, FILLER_SKELETONS)
            <==> JoinsCleanly(Compact(first), Compact(second))
  {
    ListedSkeletonIsLong(first);
    WordReaches(Skeleton(first), RESERVED_SKELETONS + FILLER_SKELETONS);
    CompoundIsReservedIff(first, second);
  }

  lemma WordReaches(x: string, words: set<string>)
    requires x in words && x != ""
    ensures Reaches(x, words, |x|)
  {
    assert x[0..|x|] == x;
    ExtendChain(x, words, [], Piece(0, |x|));
  }

  lemma OperatorMeetsNews(first: string, second: string)
    requires first == "operator" && second == "news"
    ensures !JoinsCleanly(Compact(first), Compact(second))
  {
    AlreadyCompact(first);
    AlreadyCompact(second);
  }

  /** A name built from two shipped words that is not reserved: `operatornews`. */
  lemma OperatorNewsEscapes(first: string, second: string)
    requires first == "operator" && second == "news"
    ensures first in DEFAULT_RESERVED && second in DEFAULT_RESERVED
    ensures !Reserved(first + second, RESERVED_SKELETONS, FILLER_SKELETONS)
  {
    OperatorMeetsNews(first, second);
    PairIsReservedIff(first, second);
  }

  // ----- digits that touch a digit

  /** A compact name without pairs, given its skeleton. */
  lemma SkeletonIs(c: string, k: string)
    requires forall i :: 0 <= i < |c| ==> 'a' <= c[i] <= 'z' || Digit(c[i])
    requires NoPair(c, 'r', 'n') && NoPair(c, 'v', 'v') && FoldsTo(c, 0, k, 0)
    ensures Compact(c) == c && Skeleton(c) == k
  {
    AlreadyCompact(c);
    NoPairNoFold(c, 'r', 'n', 'm');
    NoPairNoFold(c, 'v', 'v', 'w');
    FoldsToSkeleton(c, 0, k, 0);
    assert c[0..] == c && k[0..] == k;
  }

  lemma EndsInLetter(a: string, b: string)
    requires b != "" && !Digit(b[|b| - 1])
    ensures DropTrailingDigits(a + b) == a + b
  {
  }

  lemma NothingStartsLike(s: string, P: set<string>, F: set<string>)
    requires |s| >= 2 && (s[0] == 'u' || (s[0] == 'i' && s[1] == 'g')) && AllListed(P + F)
    ensures !Splits(s, P, F)
  {
    forall k, j: nat | k in P + F ensures !Covers(s, k, 0, j) {
      assert Listed(k);
      if Covers(s, k, 0, j) { CoverAgrees(s, k, 0, j); }
    }
    if Splits(s, P, F) {
      var pieces: seq<Piece> :| Chain(s, P + F, pieces) && EndOf(pieces) == |s| && HasWord(s, P, pieces);
      NoChainPasses(s, P + F, 0, pieces);
    }
  }

  lemma LooksLikeAnEntry(name: string, w: string)
    requires w in DEFAULT_RESERVED && Skeleton(name) == Skeleton(w)
    ensures Reserved(name, RESERVED_SKELETONS, FILLER_SKELETONS)
  {
    ListedSkeletonIsLong(w);
    LookalikeIsReserved(name, RESERVED_SKELETONS, FILLER_SKELETONS);
  }

  lemma Guap(w: string)
    requires w == "guap"
    ensures Skeleton(w) == w
  {
    assert FoldsTo("guap", 0, "guap", 0);
    SkeletonIs(w, w);
  }

  lemma NineUap(name: string, w: string)
    requires name == "9uap" && w == "guap"
    ensures Skeleton(name) == w
  {
    assert FoldsTo("9uap", 0, "guap", 0);
    SkeletonIs(name, w);
  }

  /** The readings of a compact name that ends in a letter. */
  lemma TwoReadings(d: string, v: string)
    requires AllDigits(d) && Compact(d + v) == d + v && v != "" && !Digit(v[0]) && !Digit(v[|v| - 1])
    ensures Variants(d + v) == {d + v, v}
  {
    LeadingDigitsDrop(d, v);
    EndsInLetter(d, v);
    EndsInLetter("", v);
    assert "" + v == v;
  }

  /** Digits d before a core v, where neither the whole nor the core starts like a listed word. */
  predicate StartsLikeNothing(d: string, v: string) {
    && AllDigits(d) && Compact(d + v) == d + v && v != "" && !Digit(v[0]) && !Digit(v[|v| - 1])
    && |Skeleton(v)| >= 2 && |Skeleton(d + v)| >= 2 && !Starts(Skeleton(v)) && !Starts(Skeleton(d + v))
  }

  lemma BothReadingsEscape(d: string, v: string, P: set<string>, F: set<string>)
    requires StartsLikeNothing(d, v) && AllListed(P + F)
    ensures !Reserved(d + v, P, F)
  {
    TwoReadings(d, v);
    NothingStartsLike(Skeleton(d + v), P, F);
    NothingStartsLike(Skeleton(v), P, F);
  }

  lemma Iguap(c: string)
    requires c == "19uap"
    ensures Compact(c) == c && Skeleton(c) == "iguap"
  {
    assert FoldsTo("19uap", 0, "iguap", 0);
    SkeletonIs(c, "iguap");
  }

  lemma Uap(c: string)
    requires c == "uap"
    ensures Skeleton(c) == "uap"
  {
    assert FoldsTo("uap", 0, "uap", 0);
    SkeletonIs(c, "uap");
  }

  lemma NineteenUap(d: string, v: string)
    requires d == "19" && v == "uap"
    ensures StartsLikeNothing(d, v)
  {
    Iguap(d + v);
    Uap(v);
  }

  lemma OneNineUap(d: string, v: string)
    requires d == "19" && v == "uap"
    ensures !Reserved(d + v, RESERVED_SKELETONS, FILLER_SKELETONS)
  {
    ShippedAreListed();
    NineteenUap(d, v);
    BothReadingsEscape(d, v, RESERVED_SKELETONS, FILLER_SKELETONS);
  }

  lemma NineUapIsReserved(name: string, w: string)
    requires name == "9uap" && w == "guap"
    ensures Reserved(name, RESERVED_SKELETONS, FILLER_SKELETONS)
  {
    Guap(w);
    NineUap(name, w);
    LooksLikeAnEntry(name, w);
  }

  lemma SplitNineUap(before: string, name: string) returns (d: string, v: string)
    requires before == "1" && name == "9uap"
    ensures d == "19" && v == "uap" && before + name == d + v
  {
    d, v := "19", "uap";
  }

  /** A digit in front of a lookalike digit frees the name: `9uap` is reserved and `19uap` is not. */
  lemma DigitBeforeDigitEscapes(before: string, name: string)
    requires before == "1" && name == "9uap"
    ensures Reserved(name, RESERVED_SKELETONS, FILLER_SKELETONS)
    ensures !Reserved(before + name, RESERVED_SKELETONS, FILLER_SKELETONS)
  {
    NineUapIsReserved(name, "guap");
    var d, v := SplitNineUap(before, name);
    OneNineUap(d, v);
  }

  /** Touching a digit need not free a name: `99uap` folds like `9uap`, and is reserved. */
  lemma DoubledDigitStaysReserved(before: string, name: string)
    requires before == "9" && name == "9uap"
    ensures Reserved(before + name, RESERVED_SKELETONS, FILLER_SKELETONS) && !Decorable(before, name, "")
  {
    DoubledNine(before + name, "guap");
    Guap("guap");
    LooksLikeAnEntry(before + name, "guap");
  }

  lemma DoubledNine(c: string, w: string)
    requires c == "99uap" && w == "guap"
    ensures Skeleton(c) == w
  {
    assert FoldsTo("99uap", 0, "guap", 0);
    SkeletonIs(c, w);
  }
}
