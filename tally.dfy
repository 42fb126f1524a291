/**
 * The end of the `quiz` command: after the voting window, turn the reactions
 * on the quiz message into adjusted counts, pick the most voted emoji and
 * announce whether it is the stored correct marker.
 */
module Tally {
  import opened Wrappers

  /** A reaction's emoji: a Unicode emoji is its text; a custom emoji is an object no text equals. */
  datatype Emoji = Unicode(text: string) | Custom(id: nat)

  /** One reaction on the message, with the number of users (the bot included) who reacted with it. */
  datatype Reaction = Reaction(emoji: Emoji, count: int)

  /** A Python dict from emoji to count, as its entries in insertion order. */
  type Counts = seq<(Emoji, int)>

  predicate DistinctKeys(d: Counts) {
    forall i, j :: 0 <= i < j < |d| ==> d[i].0 != d[j].0
  }

  predicate HasKey(d: Counts, k: Emoji) {
    exists i :: 0 <= i < |d| && d[i].0 == k
  }

  /** `d.get(k)`. */
  function Lookup(d: Counts, k: Emoji): (r: Option<int>) {
    if d == [] then None else if d[0].0 == k then Some(d[0].1) else Lookup(d[1..], k)
  }

  /** `d[k] = v`: an existing key keeps its place and takes the new value; a new key goes last. */
  function Store(d: Counts, k: Emoji, v: int): (r: Counts)
    ensures |r| == if Lookup(d, k).Some? then |d| else |d| + 1
    ensures forall i :: 0 <= i < |d| ==> r[i].0 == d[i].0
    ensures forall i :: 0 <= i < |d| && d[i].0 != k ==> r[i] == d[i]
    ensures Lookup(r, k) == Some(v)
    ensures forall k' :: k' != k ==> Lookup(r, k') == Lookup(d, k')
    ensures Lookup(d, k) == None ==> r == d + [(k, v)]
  {
    if d == [] then [(k, v)]
    else if d[0].0 == k then [(k, v)] + d[1..]
    else
      var r := [d[0]] + Store(d[1..], k, v);
      assert r[1..] == Store(d[1..], k, v);
      r
  }

  /** Whether some reaction has emoji `e`. */
  predicate Reacted(rs: seq<Reaction>, e: Emoji) {
    exists i :: 0 <= i < |rs| && rs[i].emoji == e
  }

  /** `{reaction.emoji: reaction.count - 1 for reaction in message.reactions}`. */
  function AdjustedCounts(rs: seq<Reaction>): (d: Counts)
  {
    if rs == [] then []
    else Store(AdjustedCounts(rs[..|rs| - 1]), rs[|rs| - 1].emoji, rs[|rs| - 1].count - 1)
  }

  /** The count of the last reaction with emoji `e`: the value that survives in the dict. */
  function LastCount(rs: seq<Reaction>, e: Emoji): (c: int)
    requires Reacted(rs, e)
  {
    if rs[|rs| - 1].emoji == e then rs[|rs| - 1].count
    else
      var i :| 0 <= i < |rs| && rs[i].emoji == e;
      assert rs[..|rs| - 1][i].emoji == e;
      LastCount(rs[..|rs| - 1], e)
  }

  lemma {:induction false} LookupAt(d: Counts, i: nat)
    requires DistinctKeys(d) && i < |d|
    ensures Lookup(d, d[i].0) == Some(d[i].1)
  {
    if i > 0 {
      assert d[1..][i - 1] == d[i];
      LookupAt(d[1..], i - 1);
    }
  }

  lemma {:induction false} LookupMissing(d: Counts, k: Emoji)
    requires !HasKey(d, k)
    ensures Lookup(d, k) == None
  {
    if d != [] {
      assert d[0].0 != k;
      forall i | 0 <= i < |d[1..]| ensures d[1..][i].0 != k {
        assert d[1..][i] == d[i + 1];
      }
      LookupMissing(d[1..], k);
    }
  }

  lemma {:induction false} LookupFound(d: Counts, k: Emoji)
    requires Lookup(d, k).Some?
    ensures HasKey(d, k)
  {
    if d[0].0 != k {
      LookupFound(d[1..], k);
      var i :| 0 <= i < |d[1..]| && d[1..][i].0 == k;
      assert d[i + 1].0 == k;
    }
  }

  /**
   * Every emoji that was reacted with, whether one of the three markers or not,
   * gets the count of its (last) reaction minus one; nothing else gets a count.
   */
  lemma {:induction false} AdjustedLookup(rs: seq<Reaction>, e: Emoji)
    ensures Lookup(AdjustedCounts(rs), e) == if Reacted(rs, e) then Some(LastCount(rs, e) - 1) else None
  {
    if rs != [] {
      var init := rs[..|rs| - 1];
      var last := rs[|rs| - 1];
      if last.emoji == e {
        assert Reacted(rs, e) by { assert rs[|rs| - 1].emoji == e; }
      } else {
        AdjustedLookup(init, e);
        assert Reacted(rs, e) <==> Reacted(init, e) by {
          if Reacted(rs, e) {
            var j :| 0 <= j < |rs| && rs[j].emoji == e;
            assert init[j].emoji == e;
          }
          if Reacted(init, e) {
            var j :| 0 <= j < |init| && init[j].emoji == e;
            assert rs[j].emoji == e;
          }
        }
      }
    }
  }

  /** Storing into a dict with distinct keys keeps them distinct. */
  lemma StoreDistinct(d: Counts, k: Emoji, v: int)
    requires DistinctKeys(d)
    ensures DistinctKeys(Store(d, k, v))
  {
    if Lookup(d, k) == None {
      forall i | 0 <= i < |d| ensures d[i].0 != k {
        LookupAt(d, i);
      }
    }
  }

  /**
   * The adjusted counts have one entry per distinct emoji among the reactions,
   * and no other.
   */
  lemma {:induction false} AdjustedKeys(rs: seq<Reaction>)
    ensures DistinctKeys(AdjustedCounts(rs))
    ensures forall e :: HasKey(AdjustedCounts(rs), e) <==> Reacted(rs, e)
  {
    if rs != [] {
      AdjustedKeys(rs[..|rs| - 1]);
      StoreDistinct(AdjustedCounts(rs[..|rs| - 1]), rs[|rs| - 1].emoji, rs[|rs| - 1].count - 1);
    }
    forall e ensures HasKey(AdjustedCounts(rs), e) <==> Reacted(rs, e) {
      AdjustedLookup(rs, e);
      if HasKey(AdjustedCounts(rs), e) {
        var i :| 0 <= i < |AdjustedCounts(rs)| && AdjustedCounts(rs)[i].0 == e;
        LookupAt(AdjustedCounts(rs), i);
      } else {
        LookupMissing(AdjustedCounts(rs), e);
      }
    }
  }

  /** The first reaction's emoji is the dict's first key. */
  lemma {:induction false} AdjustedFirstKey(rs: seq<Reaction>)
    requires rs != []
    ensures AdjustedCounts(rs) != [] && AdjustedCounts(rs)[0].0 == rs[0].emoji
  {
    if |rs| > 1 {
      var init := rs[..|rs| - 1];
      AdjustedFirstKey(init);
      assert init[0] == rs[0];
    }
  }

  /** Discord lists each emoji once; then the adjusted counts are the reactions in order, each minus one. */
  lemma {:induction false} AdjustedDistinctReactions(rs: seq<Reaction>)
    requires forall i, j :: 0 <= i < j < |rs| ==> rs[i].emoji != rs[j].emoji
    ensures |AdjustedCounts(rs)| == |rs|
    ensures forall i :: 0 <= i < |rs| ==> AdjustedCounts(rs)[i] == (rs[i].emoji, rs[i].count - 1)
  {
    if rs != [] {
      var init := rs[..|rs| - 1];
      var last := rs[|rs| - 1];
      AdjustedDistinctReactions(init);
      var d := AdjustedCounts(init);
      forall i | 0 <= i < |d| ensures d[i].0 != last.emoji {
        assert d[i].0 == init[i].emoji == rs[i].emoji;
      }
      LookupMissing(d, last.emoji);
      var r := AdjustedCounts(rs);
      assert r == d + [(last.emoji, last.count - 1)];
      forall i | 0 <= i < |rs| ensures r[i] == (rs[i].emoji, rs[i].count - 1) {
        if i < |d| { assert r[i] == d[i] && init[i] == rs[i]; }
      }
    }
  }

  /**
   * The index `max(d, key=d.get)` settles on: scanning in order, a later entry
   * replaces the best so far only when its count is strictly greater.
   */
  function BestIndex(d: Counts): (b: nat)
    requires d != []
    ensures b < |d|
    ensures forall j :: 0 <= j < |d| ==> d[j].1 <= d[b].1
    ensures forall j :: 0 <= j < b ==> d[j].1 < d[b].1
  {
    if |d| == 1 then 0
    else
      var b := BestIndex(d[..|d| - 1]);
      if d[|d| - 1].1 > d[b].1 then |d| - 1 else b
  }

  /** `max(d, key=d.get, default=None)`: `None` only for an empty dict, otherwise one of its keys. */
  function MostVoted(d: Counts): (m: Option<Emoji>)
    ensures m.None? <==> d == []
    ensures m.Some? ==> HasKey(d, m.value)
  {
    if d == [] then None
    else
      var b := BestIndex(d);
      Some(d[b].0)
  }

  /**
   * `MostVoted` is `None` exactly for an empty dict; otherwise it is the key of
   * the first entry whose count is at least every count.
   */
  lemma MostVotedIsFirstMax(d: Counts, b: nat)
    requires b < |d|
    requires forall j :: 0 <= j < |d| ==> d[j].1 <= d[b].1
    requires forall j :: 0 <= j < b ==> d[j].1 < d[b].1
    ensures MostVoted(d) == Some(d[b].0)
  {
    var c := BestIndex(d);
    assert d[b].1 <= d[c].1 && d[c].1 <= d[b].1;
  }

  datatype Verdict = Correct | Incorrect

  /** The comparison `most_voted == question_data["correct"]`. */
  function Judge(mostVoted: Option<Emoji>, correct: string): (v: Verdict)
    ensures v == Correct <==> mostVoted == Some(Unicode(correct))
  {
    if mostVoted.Some? && mostVoted.value == Unicode(correct) then Correct else Incorrect
  }

  /** The announcement `result_text`. */
  function Announcement(mostVoted: Option<Emoji>, correct: string): (text: string)
    ensures |text| >= |correct| + 5
    ensures text[0] == if Judge(mostVoted, correct) == Correct then '\U{2705}' else '\U{274C}'
    ensures text[|text| - |correct| - 5..|text| - 1] == "**" + correct + "**"
  {
    var head := if Judge(mostVoted, correct) == Correct
                then "\U{2705} Correct! The right answer was "
                else "\U{274C} Incorrect! The right answer was ";
    var tail := if Judge(mostVoted, correct) == Correct then "!" else ".";
    var named := if Judge(mostVoted, correct) == Correct then mostVoted.value.text else correct;
    var text := head + "**" + named + "**" + tail;
    assert text[|text| - |correct| - 5..|text| - 1] == "**" + named + "**";
    text
  }

  /**
   * The tally and verdict of `quiz` for a question whose stored correct marker
   * is `correct`. A Correct verdict needs someone to have reacted with the
   * correct marker, and whatever the verdict, the announcement ends by naming
   * the correct marker in bold.
   */
  function CloseQuiz(correct: string, rs: seq<Reaction>): (res: (Verdict, string))
    ensures res.0 == Correct ==> Reacted(rs, Unicode(correct))
    ensures |res.1| >= |correct| + 5 && res.1[|res.1| - |correct| - 5..|res.1| - 1] == "**" + correct + "**"
  {
    var mostVoted := MostVoted(AdjustedCounts(rs));
    AdjustedKeys(rs);
    (Judge(mostVoted, correct), Announcement(mostVoted, correct))
  }

  /** With no reactions at all there is no most voted emoji, and the verdict is Incorrect. */
  lemma NoReactionsIncorrect(correct: string)
    ensures CloseQuiz(correct, []).0 == Incorrect
  {
  }

  /** The reaction at `b` has the highest count, and no earlier reaction has as many. */
  ghost predicate FirstTopReaction(rs: seq<Reaction>, b: int) {
    && 0 <= b < |rs|
    && (forall j :: 0 <= j < |rs| ==> rs[j].count <= rs[b].count)
    && (forall j :: 0 <= j < b ==> rs[j].count < rs[b].count)
  }

  /**
   * For reactions with distinct emojis (as Discord reports them), the most
   * voted emoji is that of the first reaction with the highest raw count.
   */
  lemma MostVotedDistinctReactions(rs: seq<Reaction>, b: nat)
    requires forall i, j :: 0 <= i < j < |rs| ==> rs[i].emoji != rs[j].emoji
    requires FirstTopReaction(rs, b)
    ensures MostVoted(AdjustedCounts(rs)) == Some(rs[b].emoji)
  {
    AdjustedDistinctReactions(rs);
    var d := AdjustedCounts(rs);
    forall j | 0 <= j < |d| ensures d[j].1 <= d[b].1 {
      assert rs[j].count <= rs[b].count;
    }
    forall j | 0 <= j < b ensures d[j].1 < d[b].1 {
      assert rs[j].count < rs[b].count;
    }
    MostVotedIsFirstMax(d, b);
  }

  /**
   * For reactions with distinct emojis, the verdict is Correct exactly when
   * the first reaction with the highest count is the correct marker.
   */
  lemma VerdictCorrectIff(correct: string, rs: seq<Reaction>)
    requires forall i, j :: 0 <= i < j < |rs| ==> rs[i].emoji != rs[j].emoji
    ensures CloseQuiz(correct, rs).0 == Correct <==>
      exists b :: FirstTopReaction(rs, b) && rs[b].emoji == Unicode(correct)
  {
    AdjustedDistinctReactions(rs);
    var d := AdjustedCounts(rs);
    if rs != [] {
      var b := BestIndex(d);
      forall j | 0 <= j < |rs| ensures rs[j].count <= rs[b].count {
        assert d[j].1 <= d[b].1;
      }
      forall j | 0 <= j < b ensures rs[j].count < rs[b].count {
        assert d[j].1 < d[b].1;
      }
      assert FirstTopReaction(rs, b);
      forall c | FirstTopReaction(rs, c) ensures c == b {
        assert rs[b].count <= rs[c].count && rs[c].count <= rs[b].count;
      }
    }
  }

  /** Every adjusted count comes from some reaction, so bounds on the raw counts carry over, less one. */
  lemma {:induction false} AdjustedWithin(rs: seq<Reaction>, lo: int, hi: int)
    ensures (forall i :: 0 <= i < |rs| ==> rs[i].count <= hi) ==>
      forall i :: 0 <= i < |AdjustedCounts(rs)| ==> AdjustedCounts(rs)[i].1 <= hi - 1
    ensures (forall i :: 0 <= i < |rs| ==> lo <= rs[i].count) ==>
      forall i :: 0 <= i < |AdjustedCounts(rs)| ==> lo - 1 <= AdjustedCounts(rs)[i].1
  {
    if rs != [] {
      var init := rs[..|rs| - 1];
      var last := rs[|rs| - 1];
      AdjustedWithin(init, lo, hi);
      var d := AdjustedCounts(init);
      var r := AdjustedCounts(rs);
      AdjustedKeys(init);
      AdjustedKeys(rs);
      forall i | 0 <= i < |r| ensures r[i] in d || r[i].1 == last.count - 1 {
        if i < |d| && d[i].0 != last.emoji {
          assert r[i] == d[i];
        } else {
          assert r[i].0 == last.emoji;
          LookupAt(r, i);
        }
      }
      if forall i :: 0 <= i < |rs| ==> rs[i].count <= hi {
        assert forall i :: 0 <= i < |init| ==> init[i].count <= hi by {
          forall i | 0 <= i < |init| ensures init[i].count <= hi { assert init[i] == rs[i]; }
        }
      }
      if forall i :: 0 <= i < |rs| ==> lo <= rs[i].count {
        assert forall i :: 0 <= i < |init| ==> lo <= init[i].count by {
          forall i | 0 <= i < |init| ensures lo <= init[i].count { assert init[i] == rs[i]; }
        }
      }
    }
  }

  /**
   * As written: when nobody but the bot reacted, every adjusted count is 0,
   * the dict is not empty, and `max` returns its first key. With the markers
   * in the order the bot added them and the first marker correct, the quiz
   * announces a correct answer that no one gave.
   */
  lemma NoVotesJudgedCorrect(first: string, second: string, third: string)
    ensures CloseQuiz(first, [Reaction(Unicode(first), 1), Reaction(Unicode(second), 1),
                              Reaction(Unicode(third), 1)]).0 == Correct
  {
    var rs := [Reaction(Unicode(first), 1), Reaction(Unicode(second), 1), Reaction(Unicode(third), 1)];
    EqualCountsFirst(rs, 1);
  }

  /** When every reaction has the same count, `max` settles on the first reaction's emoji. */
  lemma EqualCountsFirst(rs: seq<Reaction>, c: int)
    requires rs != []
    requires forall r :: r in rs ==> r.count == c
    ensures MostVoted(AdjustedCounts(rs)) == Some(rs[0].emoji)
  {
    AdjustedFirstKey(rs);
    assert forall i :: 0 <= i < |rs| ==> rs[i].count == c by {
      forall i | 0 <= i < |rs| ensures rs[i].count == c { assert rs[i] in rs; }
    }
    AdjustedWithin(rs, c, c);
    MostVotedIsFirstMax(AdjustedCounts(rs), 0);
  }

  /** The evidently intended most voted emoji: none unless someone besides the bot reacted. */
  function MostVotedByVoters(d: Counts): (m: Option<Emoji>)
    ensures m.None? <==> forall i :: 0 <= i < |d| ==> d[i].1 <= 0
    ensures m.Some? ==> m == MostVoted(d) && d[BestIndex(d)].1 > 0
  {
    if d == [] || d[BestIndex(d)].1 <= 0 then None else MostVoted(d)
  }

  /**
   * The tally and verdict with the evidently intended treatment of a quiz
   * nobody answered. A Correct verdict needs at least one reaction with the
   * correct marker beyond the bot's own, and is then also the verdict the code
   * gives; the announcement names the correct marker in bold.
   */
  function CloseQuizIntended(correct: string, rs: seq<Reaction>): (res: (Verdict, string))
    ensures res.0 == Correct ==> Lookup(AdjustedCounts(rs), Unicode(correct)).Some?
    ensures res.0 == Correct ==> Lookup(AdjustedCounts(rs), Unicode(correct)).value > 0
    ensures res.0 == Correct ==> CloseQuiz(correct, rs).0 == Correct
    ensures |res.1| >= |correct| + 5 && res.1[|res.1| - |correct| - 5..|res.1| - 1] == "**" + correct + "**"
  {
    var d := AdjustedCounts(rs);
    var mostVoted := MostVotedByVoters(d);
    var res := (Judge(mostVoted, correct), Announcement(mostVoted, correct));
    AdjustedKeys(rs);
    if d == [] then res else LookupAt(d, BestIndex(d)); res
  }

  /** Intended: when no reaction has more than the bot's own count, the verdict is Incorrect. */
  lemma NoVotesIncorrect(correct: string, rs: seq<Reaction>)
    requires forall i :: 0 <= i < |rs| ==> rs[i].count <= 1
    ensures CloseQuizIntended(correct, rs).0 == Incorrect
  {
    AdjustedWithin(rs, 0, 1);
  }

  /**
   * Intended, for reactions with distinct emojis: the verdict is Correct
   * exactly when the first reaction with the highest count is the correct
   * marker and someone besides the bot chose it.
   */
  lemma VerdictIntendedCorrectIff(correct: string, rs: seq<Reaction>)
    requires forall i, j :: 0 <= i < j < |rs| ==> rs[i].emoji != rs[j].emoji
    ensures CloseQuizIntended(correct, rs).0 == Correct <==>
      exists b :: FirstTopReaction(rs, b) && rs[b].emoji == Unicode(correct) && rs[b].count > 1
  {
    AdjustedDistinctReactions(rs);
    var d := AdjustedCounts(rs);
    if forall i :: 0 <= i < |rs| ==> rs[i].count <= 1 {
      NoVotesIncorrect(correct, rs);
    } else {
      var k :| 0 <= k < |rs| && rs[k].count > 1;
      assert d[k].1 > 0;
      IntendedAgreesWhenVoted(correct, rs);
      VerdictCorrectIff(correct, rs);
      forall b | FirstTopReaction(rs, b) ensures rs[b].count > 1 {
        assert rs[k].count <= rs[b].count;
      }
    }
  }

  /** Intended: as soon as some emoji has a vote beyond the bot's, the verdict is the one the code gives. */
  lemma IntendedAgreesWhenVoted(correct: string, rs: seq<Reaction>)
    requires exists k :: 0 <= k < |AdjustedCounts(rs)| && AdjustedCounts(rs)[k].1 > 0
    ensures CloseQuizIntended(correct, rs) == CloseQuiz(correct, rs)
  {
  }
}
