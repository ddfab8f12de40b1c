/**
  The segmentation of src/common/reserved-usernames.ts: does a string split into dictionary words,
  at least one of them protected, where a word may reuse the last character of the one before it?
 */
module NameSegmentation {
  import opened Common

  // ----- the question

  /** One word of a split: s[from..end]. */
  datatype Piece = Piece(from: nat, end: nat)

  function EndOf(pieces: seq<Piece>): nat {
    if pieces == [] then 0 else pieces[|pieces| - 1].end
  }

  /** A word from `from` to `end` that continues a split ending at `start`: in place, or one character earlier. */
  predicate Hop(s: string, words: set<string>, start: nat, p: Piece) {
    && start < p.end <= |s|
    && (p.from == start || p.from + 1 == start)
    && s[p.from..p.end] in words
  }

  /** The pieces follow one another from the start of s, each a word of the dictionary. */
  ghost predicate Chain(s: string, words: set<string>, pieces: seq<Piece>) {
    forall k :: 0 <= k < |pieces| ==> Hop(s, words, EndOf(pieces[..k]), pieces[k])
  }

  ghost predicate HasWord(s: string, words: set<string>, pieces: seq<Piece>) {
    exists k :: 0 <= k < |pieces| && pieces[k].from <= pieces[k].end <= |s| && s[pieces[k].from..pieces[k].end] in words
  }

  ghost predicate Reaches(s: string, words: set<string>, e: nat) {
    exists pieces :: Chain(s, words, pieces) && EndOf(pieces) == e
  }

  ghost predicate ReachesWith(s: string, words: set<string>, special: set<string>, e: nat) {
    exists pieces :: Chain(s, words, pieces) && EndOf(pieces) == e && HasWord(s, special, pieces)
  }

  /** Some chain over both lists ends where s ends and passes through a word of the first list. */
  ghost predicate Splits(s: string, protectedWords: set<string>, fillers: set<string>) {
    ReachesWith(s, protectedWords + fillers, protectedWords, |s|)
  }

  // ----- splits grow and shrink by one word

  lemma ExtendChain(s: string, words: set<string>, pieces: seq<Piece>, p: Piece)
    requires Chain(s, words, pieces) && Hop(s, words, EndOf(pieces), p)
    ensures Chain(s, words, pieces + [p]) && EndOf(pieces + [p]) == p.end
  {
  }

  lemma DropLast(s: string, words: set<string>, pieces: seq<Piece>)
    requires Chain(s, words, pieces) && pieces != []
    ensures var init := pieces[..|pieces| - 1];
            Chain(s, words, init) && Hop(s, words, EndOf(init), pieces[|pieces| - 1])
  {
  }

  /** Some hop from a reachable start below `limit` ends at e. */
  ghost predicate HopsTo(s: string, words: set<string>, e: nat, limit: nat) {
    exists p: Piece, start: nat :: start < limit && Reaches(s, words, start) && Hop(s, words, start, p) && p.end == e
  }

  /** As HopsTo, with a special word either last or before. */
  ghost predicate HopsWith(s: string, words: set<string>, special: set<string>, e: nat, limit: nat) {
    exists p: Piece, start: nat ::
      && start < limit && Reaches(s, words, start) && Hop(s, words, start, p) && p.end == e
      && (s[p.from..p.end] in special || ReachesWith(s, words, special, start))
  }

  lemma ReachesIff(s: string, words: set<string>, e: nat)
    requires e > 0
    ensures Reaches(s, words, e) <==> HopsTo(s, words, e, e)
  {
    if Reaches(s, words, e) {
      var pieces: seq<Piece> :| Chain(s, words, pieces) && EndOf(pieces) == e;
      DropLast(s, words, pieces);
      var init := pieces[..|pieces| - 1];
      assert Reaches(s, words, EndOf(init));
      assert Hop(s, words, EndOf(init), pieces[|pieces| - 1]);
    }
    if HopsTo(s, words, e, e) {
      var p: Piece, start: nat :| start < e && Reaches(s, words, start) && Hop(s, words, start, p) && p.end == e;
      var pieces: seq<Piece> :| Chain(s, words, pieces) && EndOf(pieces) == start;
      ExtendChain(s, words, pieces, p);
    }
  }

  lemma ReachesWithImpliesHop(s: string, words: set<string>, special: set<string>, e: nat)
    requires e > 0 && ReachesWith(s, words, special, e)
    ensures HopsWith(s, words, special, e, e)
  {
    var pieces: seq<Piece> :| Chain(s, words, pieces) && EndOf(pieces) == e && HasWord(s, special, pieces);
    DropLast(s, words, pieces);
    var init, p := pieces[..|pieces| - 1], pieces[|pieces| - 1];
    var k :| 0 <= k < |pieces| && pieces[k].from <= pieces[k].end <= |s| && s[pieces[k].from..pieces[k].end] in special;
    if k < |init| {
      assert init[k] == pieces[k];
      assert HasWord(s, special, init);
      assert ReachesWith(s, words, special, EndOf(init));
    }
    assert Reaches(s, words, EndOf(init)) && Hop(s, words, EndOf(init), p);
  }

  lemma HopImpliesReachesWith(s: string, words: set<string>, special: set<string>, e: nat)
    requires HopsWith(s, words, special, e, e)
    ensures ReachesWith(s, words, special, e)
  {
    var p: Piece, start: nat :|
      && start < e && Reaches(s, words, start) && Hop(s, words, start, p) && p.end == e
      && (s[p.from..p.end] in special || ReachesWith(s, words, special, start));
    if s[p.from..p.end] in special {
      var pieces: seq<Piece> :| Chain(s, words, pieces) && EndOf(pieces) == start;
      ExtendChain(s, words, pieces, p);
      ExtendHasWord(s, special, pieces, p);
    } else {
      var pieces: seq<Piece> :| Chain(s, words, pieces) && EndOf(pieces) == start && HasWord(s, special, pieces);
      ExtendChain(s, words, pieces, p);
      ExtendHasWord(s, special, pieces, p);
    }
  }

  lemma ExtendHasWord(s: string, special: set<string>, pieces: seq<Piece>, p: Piece)
    requires HasWord(s, special, pieces) || (p.from <= p.end <= |s| && s[p.from..p.end] in special)
    ensures HasWord(s, special, pieces + [p])
  {
    var more := pieces + [p];
    if HasWord(s, special, pieces) {
      var k :| && 0 <= k < |pieces| && pieces[k].from <= pieces[k].end <= |s|
               && s[pieces[k].from..pieces[k].end] in special;
      assert more[k] == pieces[k];
    } else {
      assert more[|pieces|] == p;
    }
  }

  // ----- the three-valued table

  /** What the word s[from..end] makes of a start worth rank. */
  function WordRank(s: string, P: set<string>, F: set<string>, rank: nat, from: nat, end: nat): nat
    requires from <= end <= |s|
  {
    if s[from..end] in P then 2 else if s[from..end] in F then rank else 0
  }

  /** What one start contributes to the entry of `end`: a word from it, or from one character before. */
  function StartRank(s: string, P: set<string>, F: set<string>, rank: nat, start: nat, end: nat): nat
    requires start < end <= |s|
  {
    if rank == 0 then 0
    else Max(WordRank(s, P, F, rank, start, end), if start > 0 then WordRank(s, P, F, rank, start - 1, end) else 0)
  }

  /** The best contribution of the starts below `limit`. */
  function Best(s: string, P: set<string>, F: set<string>, end: nat, limit: nat): (r: nat)
    requires limit <= end <= |s|
    ensures r <= 2
    decreases end, limit
  {
    if limit == 0 then 0
    else Max(Best(s, P, F, end, limit - 1), StartRank(s, P, F, Rank(s, P, F, limit - 1), limit - 1, end))
  }

  /** 0: the prefix does not split; 1: into fillers only; 2: with a protected word. */
  function Rank(s: string, P: set<string>, F: set<string>, e: nat): (r: nat)
    requires e <= |s|
    ensures r <= 2
    decreases e, e + 1
  {
    if e == 0 then 1 else Best(s, P, F, e, e)
  }

  ghost predicate RankIsRight(s: string, P: set<string>, F: set<string>, e: nat)
    requires e <= |s|
  {
    && (Rank(s, P, F, e) > 0 <==> Reaches(s, P + F, e))
    && (Rank(s, P, F, e) == 2 <==> ReachesWith(s, P + F, P, e))
  }

  lemma StartContributes(s: string, P: set<string>, F: set<string>, start: nat, end: nat)
    requires start < end <= |s| && RankIsRight(s, P, F, start)
    ensures var r := StartRank(s, P, F, Rank(s, P, F, start), start, end);
            && (r > 0 <==> Reaches(s, P + F, start) && (exists p :: Hop(s, P + F, start, p) && p.end == end))
            && (r == 2 <==> Reaches(s, P + F, start) &&
                            (exists p :: Hop(s, P + F, start, p) && p.end == end
                                         && (s[p.from..p.end] in P || ReachesWith(s, P + F, P, start))))
  {
    var here := Piece(start, end);
    assert Hop(s, P + F, start, here) <==> s[start..end] in P + F;
    if start > 0 {
      var back := Piece(start - 1, end);
      assert Hop(s, P + F, start, back) <==> s[start - 1..end] in P + F;
    }
  }

  /** Best looks at exactly the hops from below the limit. */
  lemma {:induction false} BestIsRight(s: string, P: set<string>, F: set<string>, end: nat, limit: nat)
    requires limit <= end <= |s| && forall i :: 0 <= i < limit ==> RankIsRight(s, P, F, i)
    ensures Best(s, P, F, end, limit) > 0 <==> HopsTo(s, P + F, end, limit)
    ensures Best(s, P, F, end, limit) == 2 <==> HopsWith(s, P + F, P, end, limit)
  {
    if limit > 0 {
      BestIsRight(s, P, F, end, limit - 1);
      StartContributes(s, P, F, limit - 1, end);
      HopsSplit(s, P + F, P, end, limit);
    }
  }

  lemma HopsSplit(s: string, words: set<string>, special: set<string>, e: nat, limit: nat)
    requires limit > 0
    ensures HopsTo(s, words, e, limit) <==>
              || HopsTo(s, words, e, limit - 1)
              || (Reaches(s, words, limit - 1) && exists p :: Hop(s, words, limit - 1, p) && p.end == e)
    ensures HopsWith(s, words, special, e, limit) <==>
              || HopsWith(s, words, special, e, limit - 1)
              || (Reaches(s, words, limit - 1) &&
                  exists p :: Hop(s, words, limit - 1, p) && p.end == e
                              && (s[p.from..p.end] in special || ReachesWith(s, words, special, limit - 1)))
  {
  }

  lemma EmptyIsReached(s: string, words: set<string>, special: set<string>)
    ensures Reaches(s, words, 0) && !ReachesWith(s, words, special, 0)
  {
    assert Chain(s, words, []);
    if ReachesWith(s, words, special, 0) {
      var pieces: seq<Piece> :| Chain(s, words, pieces) && EndOf(pieces) == 0 && HasWord(s, special, pieces);
      DropLast(s, words, pieces);
    }
  }

  /** The table entry of every prefix says whether and how it splits. */
  lemma {:induction false} TableIsRight(s: string, P: set<string>, F: set<string>, e: nat)
    requires e <= |s|
    ensures RankIsRight(s, P, F, e)
  {
    EmptyIsReached(s, P + F, P);
    if e > 0 {
      forall i | 0 <= i < e
        ensures RankIsRight(s, P, F, i)
      {
        TableIsRight(s, P, F, i);
      }
      BestIsRight(s, P, F, e, e);
      ReachesIff(s, P + F, e);
      if ReachesWith(s, P + F, P, e) { ReachesWithImpliesHop(s, P + F, P, e); }
      if HopsWith(s, P + F, P, e, e) { HopImpliesReachesWith(s, P + F, P, e); }
    }
  }

  lemma {:induction false} TwoIsFinal(s: string, P: set<string>, F: set<string>, end: nat, limit: nat, more: nat)
    requires limit <= more <= end <= |s| && Best(s, P, F, end, limit) == 2
    ensures Best(s, P, F, end, more) == 2
  {
    if limit < more {
      TwoIsFinal(s, P, F, end, limit, more - 1);
    }
  }

  /** segmentsIntoProtected: fills the table in nested loops, leaving a row early at its maximum. */
  method SegmentsIntoProtected(s: string, P: set<string>, F: set<string>) returns (yes: bool)
    ensures yes <==> Splits(s, P, F)
  {
    var state := new nat[|s| + 1](_ => 0);
    state[0] := 1;
    var end := 1;
    while end <= |s|
      invariant 1 <= end <= |s| + 1
      invariant forall e :: 0 <= e < end ==> state[e] == Rank(s, P, F, e)
      invariant forall e :: end <= e <= |s| ==> state[e] == 0
    {
      var start := 0;
      while start < end && state[end] != 2
        invariant 0 <= start <= end
        invariant state[end] == Best(s, P, F, end, start)
        invariant forall e :: 0 <= e < end ==> state[e] == Rank(s, P, F, e)
        invariant forall e :: end < e <= |s| ==> state[e] == 0
      {
        if state[start] != 0 {
          if s[start..end] in P {
            state[end] := 2;
          } else if s[start..end] in F && state[end] < state[start] {
            state[end] := state[start];
          }
          if start > 0 {
            if s[start - 1..end] in P {
              state[end] := 2;
            } else if s[start - 1..end] in F && state[end] < state[start] {
              state[end] := state[start];
            }
          }
        }
        start := start + 1;
      }
      if start < end {
        TwoIsFinal(s, P, F, end, start, end);
      }
      end := end + 1;
    }
    TableIsRight(s, P, F, |s|);
    return state[|s|] == 2;
  }
}
