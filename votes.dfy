/**
 * The like/dislike rule of create_a_Fable_Like and create_a_Fable_Dislike:
 * the `filter` predicates the two handlers use and the change each makes to
 * the two lists and their counters before the document is saved.
 */
module Votes {
  import opened Wrappers
  import opened FableSchema
  import opened Outcomes

  /** `votes.filter(v => v.user === user)`: the entries cast by `user`, in order. */
  function By(votes: seq<Vote>, user: string): (r: seq<Vote>)
    ensures forall v :: v in r <==> v in votes && v.user == user
  {
    if votes == [] then []
    else (if votes[0].user == user then [votes[0]] else []) + By(votes[1..], user)
  }

  /** `hasLiked` / `hasDisliked`: the filtered list is not empty. */
  predicate HasVoted(votes: seq<Vote>, user: string)
    ensures HasVoted(votes, user) <==> exists i :: 0 <= i < |votes| && votes[i].user == user
  {
    var r := By(votes, user);
    assert r != [] ==> r[0] in r;
    assert forall i :: 0 <= i < |votes| && votes[i].user == user ==> votes[i] in r;
    |r| > 0
  }

  /** `votes.filter(v => v.user !== user)`: every entry not cast by `user`, in order. */
  function Without(votes: seq<Vote>, user: string): (r: seq<Vote>)
    ensures forall v :: v in r <==> v in votes && v.user != user
    ensures |r| <= |votes|
  {
    if votes == [] then []
    else (if votes[0].user != user then [votes[0]] else []) + Without(votes[1..], user)
  }

  /** Filtering a list in which `user` has no entry returns it unchanged. */
  lemma {:induction false} WithoutAbsent(votes: seq<Vote>, user: string)
    requires !HasVoted(votes, user)
    ensures Without(votes, user) == votes
  {
    if votes != [] {
      assert !HasVoted(votes[1..], user) by {
        forall i | 0 <= i < |votes[1..]|
          ensures votes[1..][i].user != user
        {
          assert votes[1..][i] == votes[i + 1];
        }
      }
      WithoutAbsent(votes[1..], user);
      assert votes == [votes[0]] + votes[1..];
    }
  }

  /** Filtering works piecewise, so the kept entries keep their order. */
  lemma {:induction false} WithoutAppend(a: seq<Vote>, b: seq<Vote>, user: string)
    ensures Without(a + b, user) == Without(a, user) + Without(b, user)
  {
    if a == [] {
      assert a + b == b;
    } else {
      assert (a + b)[1..] == a[1..] + b;
      assert (a + b)[0] == a[0];
      WithoutAppend(a[1..], b, user);
    }
  }

  /** No user holds two entries of the list. */
  predicate NoRepeats(votes: seq<Vote>) {
    forall i, j :: 0 <= i < j < |votes| ==> votes[i].user != votes[j].user
  }

  /** No user holds an entry in both lists. */
  predicate Exclusive(a: seq<Vote>, b: seq<Vote>) {
    forall i, j :: 0 <= i < |a| && 0 <= j < |b| ==> a[i].user != b[j].user
  }

  /** Dropping entries from a list without repeats leaves one without repeats. */
  lemma {:induction false} WithoutNoRepeats(votes: seq<Vote>, user: string)
    requires NoRepeats(votes)
    ensures NoRepeats(Without(votes, user))
  {
    if votes != [] {
      var tail := votes[1..];
      assert NoRepeats(tail) by {
        forall i, j | 0 <= i < j < |tail|
          ensures tail[i].user != tail[j].user
        {
          assert tail[i] == votes[i + 1] && tail[j] == votes[j + 1];
        }
      }
      WithoutNoRepeats(tail, user);
      var rest := Without(tail, user);
      if votes[0].user != user {
        forall j | 0 <= j < |rest|
          ensures votes[0].user != rest[j].user
        {
          assert rest[j] in tail;
          var k :| 0 <= k < |tail| && tail[k] == rest[j];
          assert tail[k] == votes[k + 1];
        }
        var r := [votes[0]] + rest;
        forall i, j | 0 <= i < j < |r|
          ensures r[i].user != r[j].user
        {
          assert r[j] == rest[j - 1];
          if i > 0 {
            assert r[i] == rest[i - 1];
          }
        }
      } else {
        assert Without(votes, user) == rest;
      }
    }
  }

  /** An unset counter stands for an empty list; a set one holds the length. */
  predicate CountAgrees(count: Option<int>, n: nat) {
    count == Some(n) || (count.None? && n == 0)
  }

  /** The value a counter shows, an unset one showing 0. */
  function Shown(count: Option<int>): int {
    count.GetOr(0)
  }

  /** The two lists of a Fable and their counters. */
  datatype Tally = Tally(likes: seq<Vote>, likesCount: Option<int>, dislikes: seq<Vote>, dislikesCount: Option<int>)

  /**
   * The invariant the two handlers keep: nobody votes twice in one list,
   * nobody is in both lists, and each counter agrees with its list.
   */
  predicate Invariant(t: Tally) {
    && NoRepeats(t.likes)
    && NoRepeats(t.dislikes)
    && Exclusive(t.likes, t.dislikes)
    && CountAgrees(t.likesCount, |t.likes|)
    && CountAgrees(t.dislikesCount, |t.dislikes|)
  }

  /** A handler's reply together with the lists it leaves behind. */
  datatype Step = Step(outcome: Outcome, tally: Tally)

  /** create_a_Fable_Like on the in-memory document. */
  function Like(t: Tally, user: string): Step {
    if HasVoted(t.likes, user) then Step(AlreadyLiked, t)
    else
      var t1 :=
        if HasVoted(t.dislikes, user) then
          var dislikes := Without(t.dislikes, user);
          t.(dislikes := dislikes, dislikesCount := Some(|dislikes|))
        else t;
      if user != "" then
        var likes := t1.likes + [Vote(user)];
        var t2 := t1.(likes := likes, likesCount := Some(|likes|));
        Step(LikeCreated(t2.likesCount, t2.dislikesCount), t2)
      else
        Step(NoCaller, t1)
  }

  /** create_a_Fable_Dislike on the in-memory document. */
  function Dislike(t: Tally, user: string): Step {
    if HasVoted(t.dislikes, user) then Step(AlreadyDisliked, t)
    else
      var t1 :=
        if HasVoted(t.likes, user) then
          var likes := Without(t.likes, user);
          t.(likes := likes, likesCount := Some(|likes|))
        else t;
      if user != "" then
        var dislikes := t1.dislikes + [Vote(user)];
        var t2 := t1.(dislikes := dislikes, dislikesCount := Some(|dislikes|));
        Step(DislikeCreated(t2.likesCount, t2.dislikesCount), t2)
      else
        Step(NoCaller, t1)
  }

  /** A user who already likes the Fable is told so, and nothing changes. */
  lemma LikeRepeated(t: Tally, user: string)
    requires HasVoted(t.likes, user)
    ensures Like(t, user) == Step(AlreadyLiked, t)
    ensures Reply(Like(t, user).outcome) == "You cannot like more than once."
  {
  }

  /**
   * Otherwise every dislike by the user is dropped, the other dislikes keep
   * their order, and the dislike counter is set to the new length when
   * something was dropped.
   */
  lemma LikeClearsDislikes(t: Tally, user: string)
    requires !HasVoted(t.likes, user)
    ensures var r := Like(t, user).tally;
      && r.dislikes == Without(t.dislikes, user)
      && !HasVoted(r.dislikes, user)
      && r.dislikesCount == (if HasVoted(t.dislikes, user) then Some(|r.dislikes|) else t.dislikesCount)
  {
    if !HasVoted(t.dislikes, user) {
      WithoutAbsent(t.dislikes, user);
    }
  }

  /** Otherwise one `{user}` entry is added at the end of the likes, and the counter follows. */
  lemma LikeAppends(t: Tally, user: string)
    requires !HasVoted(t.likes, user) && user != ""
    ensures var s := Like(t, user);
      && s.tally.likes == t.likes + [Vote(user)]
      && s.tally.likesCount == Some(|t.likes| + 1)
      && s.outcome == LikeCreated(s.tally.likesCount, s.tally.dislikesCount)
  {
  }

  /** A user who already dislikes the Fable is told so, and nothing changes. */
  lemma DislikeRepeated(t: Tally, user: string)
    requires HasVoted(t.dislikes, user)
    ensures Dislike(t, user) == Step(AlreadyDisliked, t)
    ensures Reply(Dislike(t, user).outcome) == "You cannot dislike more than once."
  {
  }

  /** The mirror of LikeClearsDislikes. */
  lemma DislikeClearsLikes(t: Tally, user: string)
    requires !HasVoted(t.dislikes, user)
    ensures var r := Dislike(t, user).tally;
      && r.likes == Without(t.likes, user)
      && !HasVoted(r.likes, user)
      && r.likesCount == (if HasVoted(t.likes, user) then Some(|r.likes|) else t.likesCount)
  {
    if !HasVoted(t.likes, user) {
      WithoutAbsent(t.likes, user);
    }
  }

  /** The mirror of LikeAppends. */
  lemma DislikeAppends(t: Tally, user: string)
    requires !HasVoted(t.dislikes, user) && user != ""
    ensures var s := Dislike(t, user);
      && s.tally.dislikes == t.dislikes + [Vote(user)]
      && s.tally.dislikesCount == Some(|t.dislikes| + 1)
      && s.outcome == DislikeCreated(s.tally.likesCount, s.tally.dislikesCount)
  {
  }

  /** Appending a vote by someone absent from both lists keeps them apart and free of repeats. */
  lemma AppendFresh(keep: seq<Vote>, other: seq<Vote>, user: string)
    requires NoRepeats(keep) && Exclusive(keep, other)
    requires !HasVoted(keep, user) && !HasVoted(other, user)
    ensures NoRepeats(keep + [Vote(user)])
    ensures Exclusive(keep + [Vote(user)], other) && Exclusive(other, keep + [Vote(user)])
  {
    var k := keep + [Vote(user)];
    forall i, j | 0 <= i < j < |k|
      ensures k[i].user != k[j].user
    {
      assert k[i] == keep[i];
    }
    forall i, j | 0 <= i < |k| && 0 <= j < |other|
      ensures k[i].user != other[j].user
    {
      if i < |keep| {
        assert k[i] == keep[i];
      }
    }
  }

  /** A filtered list stays apart from any list the original was apart from. */
  lemma WithoutExclusive(a: seq<Vote>, b: seq<Vote>, user: string)
    requires Exclusive(a, b)
    ensures Exclusive(a, Without(b, user))
  {
    var w := Without(b, user);
    forall i, j | 0 <= i < |a| && 0 <= j < |w|
      ensures a[i].user != w[j].user
    {
      assert w[j] in b;
      var k :| 0 <= k < |b| && b[k] == w[j];
    }
  }

  /** Like keeps the invariant, whoever the caller is. */
  lemma LikeKeepsInvariant(t: Tally, user: string)
    requires Invariant(t)
    ensures Invariant(Like(t, user).tally)
  {
    if !HasVoted(t.likes, user) {
      var dislikes := Without(t.dislikes, user);
      WithoutNoRepeats(t.dislikes, user);
      WithoutExclusive(t.likes, t.dislikes, user);
      if !HasVoted(t.dislikes, user) {
        WithoutAbsent(t.dislikes, user);
      }
      if user != "" {
        AppendFresh(t.likes, dislikes, user);
      }
    }
  }

  /** Exclusive is symmetric. */
  lemma ExclusiveSwap(a: seq<Vote>, b: seq<Vote>)
    requires Exclusive(a, b)
    ensures Exclusive(b, a)
  {
  }

  /** Dislike keeps the invariant, whoever the caller is. */
  lemma DislikeKeepsInvariant(t: Tally, user: string)
    requires Invariant(t)
    ensures Invariant(Dislike(t, user).tally)
  {
    if !HasVoted(t.dislikes, user) {
      var likes := Without(t.likes, user);
      WithoutNoRepeats(t.likes, user);
      ExclusiveSwap(t.likes, t.dislikes);
      WithoutExclusive(t.dislikes, t.likes, user);
      if !HasVoted(t.likes, user) {
        WithoutAbsent(t.likes, user);
      }
      if user != "" {
        AppendFresh(t.dislikes, likes, user);
        ExclusiveSwap(t.dislikes + [Vote(user)], likes);
      }
    }
  }

  /** A second like by the same user is turned away and changes nothing. */
  lemma LikeTwice(t: Tally, user: string)
    requires user != ""
    ensures var once := Like(t, user);
      Like(once.tally, user) == Step(AlreadyLiked, once.tally)
  {
    var once := Like(t, user).tally;
    if !HasVoted(t.likes, user) {
      assert once.likes[|once.likes| - 1] == Vote(user);
    }
  }

  /** A second dislike by the same user is turned away and changes nothing. */
  lemma DislikeTwice(t: Tally, user: string)
    requires user != ""
    ensures var once := Dislike(t, user);
      Dislike(once.tally, user) == Step(AlreadyDisliked, once.tally)
  {
    var once := Dislike(t, user).tally;
    if !HasVoted(t.dislikes, user) {
      assert once.dislikes[|once.dislikes| - 1] == Vote(user);
    }
  }

  /**
   * A user with no vote who likes and then dislikes leaves the likes as they
   * were, the like counter showing what it showed before, and one more
   * dislike at the end.
   */
  lemma LikeThenDislike(t: Tally, user: string)
    requires Invariant(t) && user != ""
    requires !HasVoted(t.likes, user) && !HasVoted(t.dislikes, user)
    ensures var r := Dislike(Like(t, user).tally, user).tally;
      && r.likes == t.likes
      && Shown(r.likesCount) == Shown(t.likesCount)
      && r.dislikes == t.dislikes + [Vote(user)]
      && Shown(r.dislikesCount) == Shown(t.dislikesCount) + 1
  {
    var once := Like(t, user).tally;
    WithoutAbsent(t.dislikes, user);
    assert once.likes == t.likes + [Vote(user)];
    assert HasVoted(once.likes, user) by {
      assert once.likes[|t.likes|] == Vote(user);
    }
    WithoutAppend(t.likes, [Vote(user)], user);
    WithoutAbsent(t.likes, user);
    assert Without([Vote(user)], user) == [];
  }

  /** A like or a dislike by one user. */
  datatype Action = LikeBy(user: string) | DislikeBy(user: string)

  function Apply(t: Tally, a: Action): Tally {
    match a
    case LikeBy(u) => Like(t, u).tally
    case DislikeBy(u) => Dislike(t, u).tally
  }

  /** The lists after a sequence of likes and dislikes, in order. */
  function Replay(t: Tally, actions: seq<Action>): Tally
    decreases |actions|
  {
    if actions == [] then t else Replay(Apply(t, actions[0]), actions[1..])
  }

  /** Any sequence of likes and dislikes keeps the invariant. */
  lemma {:induction false} ReplayKeepsInvariant(t: Tally, actions: seq<Action>)
    requires Invariant(t)
    ensures Invariant(Replay(t, actions))
    decreases |actions|
  {
    if actions != [] {
      match actions[0] {
        case LikeBy(u) => LikeKeepsInvariant(t, u);
        case DislikeBy(u) => DislikeKeepsInvariant(t, u);
      }
      ReplayKeepsInvariant(Apply(t, actions[0]), actions[1..]);
    }
  }

  /** A new Fable with no votes, whose counters are unset, meets the invariant. */
  lemma EmptyInvariant()
    ensures Invariant(Tally([], None, [], None))
  {
  }
}
