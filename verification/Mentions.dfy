/** Lists in the order in which things were first mentioned. */
module Mentions {
  /** Nothing before place `k` mentions the same. */
  ghost predicate IsFirst<T>(mentions: seq<T>, k: nat) {
    k < |mentions| && forall j :: 0 <= j < k ==> mentions[j] != mentions[k]
  }

  /** `after` is `before` followed by what is first mentioned at the places `at`, in that order. */
  ghost predicate AddsAt<T>(before: seq<T>, after: seq<T>, mentions: seq<T>, at: seq<nat>) {
    && before <= after && |after| == |before| + |at|
    && (forall i, j :: 0 <= i < j < |at| ==> at[i] < at[j])
    && (forall i :: 0 <= i < |at| ==> IsFirst(mentions, at[i]) && after[|before| + i] == mentions[at[i]])
  }

  ghost predicate Adds<T>(before: seq<T>, after: seq<T>, mentions: seq<T>) {
    exists at: seq<nat> :: AddsAt(before, after, mentions, at)
  }

  /** Everything mentioned, once, in the order of the first mentions. */
  ghost predicate ListsFirsts<T(!new)>(list: seq<T>, mentions: seq<T>) {
    Adds([], list, mentions) && forall x :: x in list <==> x in mentions
  }

  lemma AddsNothing<T>(before: seq<T>)
    ensures Adds(before, before, [])
  {
    assert AddsAt(before, before, [], []);
  }

  lemma IsFirstMore<T>(mentions: seq<T>, x: T, k: nat)
    ensures k < |mentions| ==> (IsFirst(mentions + [x], k) <==> IsFirst(mentions, k))
    ensures IsFirst(mentions + [x], |mentions|) <==> x !in mentions
  {
    var more := mentions + [x];
    assert forall j :: 0 <= j < |mentions| ==> more[j] == mentions[j] && mentions[j] in mentions;
    if x in mentions {
      var j :| 0 <= j < |mentions| && mentions[j] == x;
      assert more[j] == more[|mentions|];
    }
  }

  /** One more mention: it is added at the end, when it is the first, or changes nothing. */
  lemma AddsOneMore<T>(before: seq<T>, after: seq<T>, mentions: seq<T>, x: T)
    requires Adds(before, after, mentions)
    ensures Adds(before, after, mentions + [x])
    ensures x !in mentions ==> Adds(before, after + [x], mentions + [x])
  {
    var at: seq<nat> :| AddsAt(before, after, mentions, at);
    var more := mentions + [x];
    forall i | 0 <= i < |at|
      ensures IsFirst(more, at[i]) && more[at[i]] == mentions[at[i]]
    {
      IsFirstMore(mentions, x, at[i]);
    }
    assert AddsAt(before, after, more, at);
    if x !in mentions {
      IsFirstMore(mentions, x, |mentions|);
      var at': seq<nat> := at + [|mentions|];
      forall i | 0 <= i < |at'|
        ensures IsFirst(more, at'[i]) && (after + [x])[|before| + i] == more[at'[i]]
      {
        if i < |at| {
          assert at'[i] == at[i];
        }
      }
      assert AddsAt(before, after + [x], more, at');
    }
  }

  lemma NoFirsts<T(!new)>()
    ensures ListsFirsts<T>([], [])
  {
    AddsNothing<T>([]);
  }

  lemma ListsOneMore<T(!new)>(list: seq<T>, mentions: seq<T>, x: T)
    requires ListsFirsts(list, mentions)
    ensures ListsFirsts(if x in list then list else list + [x], mentions + [x])
  {
    AddsOneMore([], list, mentions, x);
  }
}
