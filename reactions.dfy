/**
 Reaction accounting of one sauce document, as `likesAndDislikes` in
 backend/controllers/sauce.js performs it: a request `(userId, like)` with
 `like` 1 (like), -1 (dislike), 0 (neutral) or anything else.

 Each update the controller issues moves a counter and its user list
 together (`$inc` with `$push`, or `$inc: -1` with `$pull`), guarded by a
 membership test on the document as it was read. The functions here give the
 document's reaction fields after a request; the stored document itself is the
 class `Sauces.Sauce`.

 The controller does NOT keep the two lists disjoint: a like only checks
 `usersLiked` and a dislike only checks `usersDisliked`
 (see LikeThenDislikeInBothLists).
 */
module Reactions {

  type UserId = string

  /** The reaction fields of a sauce document. */
  datatype Tally = Tally(likes: int, dislikes: int, usersLiked: seq<UserId>, usersDisliked: seq<UserId>)

  /** The reaction fields of a freshly created sauce. */
  const Empty := Tally(0, 0, [], [])

  predicate NoDuplicates(s: seq<UserId>) {
    forall i, j :: 0 <= i < j < |s| ==> s[i] != s[j]
  }

  /** Each counter equals the length of its list and no user is listed twice. */
  predicate Consistent(t: Tally) {
    && t.likes == |t.usersLiked|
    && t.dislikes == |t.usersDisliked|
    && NoDuplicates(t.usersLiked)
    && NoDuplicates(t.usersDisliked)
  }

  /** MongoDB's `$pull`: every occurrence of `x` leaves the list, the rest keep their order. */
  function Pull(s: seq<UserId>, x: UserId): (r: seq<UserId>)
    ensures forall y :: y in r <==> y in s && y != x
    ensures x !in s ==> r == s
    ensures |r| <= |s|
  {
    if s == [] then []
    else if s[0] == x then Pull(s[1..], x)
    else [s[0]] + Pull(s[1..], x)
  }

  /** like = 1: `$inc likes, $push usersLiked` unless the user already likes the sauce. */
  function Like(t: Tally, u: UserId): (r: Tally)
    ensures u in r.usersLiked
    ensures forall v :: v != u ==> (v in r.usersLiked <==> v in t.usersLiked)
    ensures r.likes - |r.usersLiked| == t.likes - |t.usersLiked|
    ensures r.dislikes == t.dislikes && r.usersDisliked == t.usersDisliked
  {
    if u in t.usersLiked then t
    else t.(likes := t.likes + 1, usersLiked := t.usersLiked + [u])
  }

  /** like = -1: `$inc dislikes, $push usersDisliked` unless the user already dislikes the sauce. */
  function Dislike(t: Tally, u: UserId): (r: Tally)
    ensures u in r.usersDisliked
    ensures forall v :: v != u ==> (v in r.usersDisliked <==> v in t.usersDisliked)
    ensures r.dislikes - |r.usersDisliked| == t.dislikes - |t.usersDisliked|
    ensures r.likes == t.likes && r.usersLiked == t.usersLiked
  {
    if u in t.usersDisliked then t
    else t.(dislikes := t.dislikes + 1, usersDisliked := t.usersDisliked + [u])
  }

  /**
   like = 0: one `$inc -1, $pull` update for each list that holds the user.
   Both membership tests look at the document as it was read; the two
   updates touch different fields, so their order does not matter.
   */
  function Neutral(t: Tally, u: UserId): (r: Tally)
    ensures u !in r.usersLiked && u !in r.usersDisliked
    ensures forall v :: v != u ==> (v in r.usersLiked <==> v in t.usersLiked)
    ensures forall v :: v != u ==> (v in r.usersDisliked <==> v in t.usersDisliked)
  {
    var afterLike :=
      if u in t.usersLiked then t.(likes := t.likes - 1, usersLiked := Pull(t.usersLiked, u)) else t;
    if u in t.usersDisliked then afterLike.(dislikes := t.dislikes - 1, usersDisliked := Pull(t.usersDisliked, u))
    else afterLike
  }

  /** The `switch (req.body.like)`: any value other than 1, -1 and 0 leaves the document alone. */
  function React(t: Tally, u: UserId, like: int): (r: Tally)
    ensures like == 1 ==> u in r.usersLiked
    ensures like == -1 ==> u in r.usersDisliked
    ensures like == 0 ==> u !in r.usersLiked && u !in r.usersDisliked
    ensures like != 1 && like != -1 && like != 0 ==> r == t
  {
    if like == 1 then Like(t, u)
    else if like == -1 then Dislike(t, u)
    else if like == 0 then Neutral(t, u)
    else t
  }

  /**
   The request passes its membership guard, so the controller issues at least
   one update; this happens exactly when the request changes the document.
   */
  predicate IssuesUpdate(t: Tally, u: UserId, like: int): (b: bool)
    ensures b <==> React(t, u, like) != t
    ensures b ==> like == 1 || like == -1 || like == 0
  {
    || (like == 1 && u !in t.usersLiked)
    || (like == -1 && u !in t.usersDisliked)
    || (like == 0 && (u in t.usersLiked || u in t.usersDisliked))
  }

  // ---------------------------------------------------------------------------
  // Facts about lists

  lemma {:induction false} PullKeepsNoDuplicates(s: seq<UserId>, x: UserId)
    requires NoDuplicates(s)
    ensures NoDuplicates(Pull(s, x))
    ensures x in s ==> |Pull(s, x)| == |s| - 1
  {
    if s != [] {
      assert NoDuplicates(s[1..]);
      PullKeepsNoDuplicates(s[1..], x);
      if s[0] != x {
        var p := Pull(s[1..], x);
        assert s[0] !in s[1..];
        assert s[0] !in p;
        PrependKeepsNoDuplicates(s[0], p);
        if x in s {
          assert x in s[1..];
        }
      } else {
        assert x !in s[1..];
      }
    }
  }

  lemma PrependKeepsNoDuplicates(a: UserId, s: seq<UserId>)
    requires NoDuplicates(s) && a !in s
    ensures NoDuplicates([a] + s)
  {
    forall i, j | 0 <= i < j < |[a] + s| ensures ([a] + s)[i] != ([a] + s)[j] {
      if i == 0 {
        assert ([a] + s)[j] == s[j - 1];
      } else {
        assert ([a] + s)[i] == s[i - 1] && ([a] + s)[j] == s[j - 1];
      }
    }
  }

  lemma AppendKeepsNoDuplicates(s: seq<UserId>, a: UserId)
    requires NoDuplicates(s) && a !in s
    ensures NoDuplicates(s + [a])
  {
    forall i, j | 0 <= i < j < |s + [a]| ensures (s + [a])[i] != (s + [a])[j] {
      assert (s + [a])[i] == s[i];
      if j == |s| {
        assert s[i] in s;
      }
    }
  }

  /** Pulling the user that was just pushed gives back the list before the push. */
  lemma {:induction false} PullUndoesPush(s: seq<UserId>, x: UserId)
    requires x !in s
    ensures Pull(s + [x], x) == s
  {
    if s == [] {
      assert [] + [x] == [x];
    } else {
      assert (s + [x])[0] == s[0];
      assert (s + [x])[1..] == s[1..] + [x];
      PullUndoesPush(s[1..], x);
      assert [s[0]] + s[1..] == s;
    }
  }

  // ---------------------------------------------------------------------------
  // Properties of the transitions

  /**
   Every update moves a counter and its list together and a decrement happens
   only when the user is listed, so consistency is preserved and neither
   counter becomes negative.
   */
  lemma ReactKeepsConsistent(t: Tally, u: UserId, like: int)
    requires Consistent(t)
    ensures Consistent(React(t, u, like))
    ensures React(t, u, like).likes >= 0 && React(t, u, like).dislikes >= 0
  {
    if like == 1 && u !in t.usersLiked {
      AppendKeepsNoDuplicates(t.usersLiked, u);
    } else if like == -1 && u !in t.usersDisliked {
      AppendKeepsNoDuplicates(t.usersDisliked, u);
    } else if like == 0 {
      PullKeepsNoDuplicates(t.usersLiked, u);
      PullKeepsNoDuplicates(t.usersDisliked, u);
    }
  }

  /** Sending the same request twice in a row has the effect of sending it once. */
  lemma ReactIdempotent(t: Tally, u: UserId, like: int)
    ensures React(React(t, u, like), u, like) == React(t, u, like)
  {
  }

  /** A request by one user never changes whether another user is listed. */
  lemma ReactLeavesOthers(t: Tally, u: UserId, like: int, v: UserId)
    requires v != u
    ensures v in React(t, u, like).usersLiked <==> v in t.usersLiked
    ensures v in React(t, u, like).usersDisliked <==> v in t.usersDisliked
  {
  }

  /** From a user who reacted to nothing, a like followed by a neutral restores the document exactly. */
  lemma LikeThenNeutralRestores(t: Tally, u: UserId)
    requires u !in t.usersLiked && u !in t.usersDisliked
    ensures React(React(t, u, 1), u, 0) == t
  {
    PullUndoesPush(t.usersLiked, u);
  }

  /** From a user who reacted to nothing, a dislike followed by a neutral restores the document exactly. */
  lemma DislikeThenNeutralRestores(t: Tally, u: UserId)
    requires u !in t.usersLiked && u !in t.usersDisliked
    ensures React(React(t, u, -1), u, 0) == t
  {
    PullUndoesPush(t.usersDisliked, u);
  }

  /**
   A like followed by a dislike, with no neutral between, leaves the user in
   both lists and counted in both counters: the controller does not keep the
   lists disjoint.
   */
  lemma LikeThenDislikeInBothLists(t: Tally, u: UserId)
    requires u !in t.usersLiked && u !in t.usersDisliked
    ensures var r := React(React(t, u, 1), u, -1);
      && u in r.usersLiked && u in r.usersDisliked
      && r.likes == t.likes + 1 && r.dislikes == t.dislikes + 1
  {
  }

  /** A like from a user not yet listed: one more like, the user appended, the dislike side untouched. */
  lemma LikeFromNewUser(t: Tally, u: UserId)
    requires u !in t.usersLiked
    ensures var r := React(t, u, 1);
      && r.likes == t.likes + 1 && r.usersLiked == t.usersLiked + [u]
      && r.dislikes == t.dislikes && r.usersDisliked == t.usersDisliked
  {
  }

  /**
   A neutral takes exactly one off each counter whose list held the user; on a
   consistent document the counters then still match the lists.
   */
  lemma NeutralDecrements(t: Tally, u: UserId)
    ensures var r := React(t, u, 0);
      && r.likes == t.likes - (if u in t.usersLiked then 1 else 0)
      && r.dislikes == t.dislikes - (if u in t.usersDisliked then 1 else 0)
    ensures Consistent(t) ==>
      var r := React(t, u, 0);
      |r.usersLiked| == r.likes && |r.usersDisliked| == r.dislikes
  {
    if Consistent(t) {
      PullKeepsNoDuplicates(t.usersLiked, u);
      PullKeepsNoDuplicates(t.usersDisliked, u);
    }
  }

  /** Like, like again, then neutral, from a fresh sauce: 1 like, still 1 like, then back to none. */
  lemma LikeLikeNeutralScenario()
    ensures React(Empty, "u1", 1) == Tally(1, 0, ["u1"], [])
    ensures React(React(Empty, "u1", 1), "u1", 1) == Tally(1, 0, ["u1"], [])
    ensures React(React(React(Empty, "u1", 1), "u1", 1), "u1", 0) == Empty
  {
    LikeThenNeutralRestores(Empty, "u1");
  }

}
