/**
 * The rating page (src/pages/Rate.tsx): the queue of name cards it shows one
 * at a time, the Fisher-Yates shuffle applied to the cards when they
 * arrive, the head pop on a vote, and the removal of an added suggestion
 * from the suggestion list.
 *
 * The random index of each shuffle step is an oracle: `picks[i]` is the
 * index chosen at step `i`, any value in 0..i. Network calls are not made;
 * the functions return the request the page would send.
 */
module RatePage {

  datatype Option<T> = None | Some(value: T)

  /** A name card as the page receives it from the server. */
  datatype NameRecord = NameRecord(id: string, name: string, gender: string)

  /** The three vote buttons of the page. */
  datatype Vote = Like | Dislike | Maybe

  /** The vote request the page sends to the server. */
  datatype VoteCall = VoteCall(nameId: string, vote: Vote)

  // ---------------------------------------------------------------------
  // Fisher-Yates shuffle
  // ---------------------------------------------------------------------

  /** Exchange positions `i` and `j`, as the destructuring assignment does. */
  function Swap<T>(s: seq<T>, i: nat, j: nat): seq<T>
    requires i < |s| && j < |s|
  {
    s[i := s[j]][j := s[i]]
  }

  /** A step exchanges exactly positions `i` and `j` and keeps every other
      position, so it keeps the multiset of cards. */
  lemma SwapExchanges<T>(s: seq<T>, i: nat, j: nat)
    requires i < |s| && j < |s|
    ensures |Swap(s, i, j)| == |s| && Swap(s, i, j)[i] == s[j] && Swap(s, i, j)[j] == s[i]
    ensures forall k :: 0 <= k < |s| && k != i && k != j ==> Swap(s, i, j)[k] == s[k]
    ensures multiset(Swap(s, i, j)) == multiset(s)
  {
  }

  /** An oracle for an array of length `n`: step `i` picks an index in 0..i,
      which is what flooring a random number in [0, 1) times i + 1 yields. */
  ghost predicate ValidPicks(picks: seq<nat>, n: nat)
  {
    |picks| == n && forall i :: 0 <= i < n ==> picks[i] <= i
  }

  /** The steps `i`, `i - 1`, ..., 1 of the shuffle applied to `s`. */
  ghost function ShuffleSteps<T>(s: seq<T>, picks: seq<nat>, i: int): seq<T>
    requires i < |s| && ValidPicks(picks, |s|)
    decreases i
  {
    if i <= 0 then s else ShuffleSteps(Swap(s, i, picks[i]), picks, i - 1)
  }

  /** The whole shuffle: steps from the last index down to 1. */
  ghost function Shuffled<T>(s: seq<T>, picks: seq<nat>): seq<T>
    requires ValidPicks(picks, |s|)
  {
    ShuffleSteps(s, picks, |s| - 1)
  }

  /** The in-place shuffle of the cards, run on the server's array. */
  method Shuffle<T>(data: array<T>, picks: seq<nat>)
    requires ValidPicks(picks, data.Length)
    modifies data
    ensures data[..] == Shuffled(old(data[..]), picks)
    ensures multiset(data[..]) == multiset(old(data[..]))
  {
    var i := data.Length - 1;
    while i > 0
      invariant -1 <= i < data.Length
      invariant ShuffleSteps(data[..], picks, i) == Shuffled(old(data[..]), picks)
    {
      var j := picks[i];
      ghost var before := data[..];
      data[i], data[j] := data[j], data[i];
      assert data[..] == Swap(before, i, j);
      i := i - 1;
    }
    ShuffledIsPermutation(old(data[..]), picks);
  }

  lemma {:induction false} ShuffleStepsPermute<T>(s: seq<T>, picks: seq<nat>, i: int)
    requires i < |s| && ValidPicks(picks, |s|)
    ensures |ShuffleSteps(s, picks, i)| == |s|
    ensures multiset(ShuffleSteps(s, picks, i)) == multiset(s)
    decreases i
  {
    if i > 0 {
      var s' := Swap(s, i, picks[i]);
      SwapExchanges(s, i, picks[i]);
      assert ShuffleSteps(s, picks, i) == ShuffleSteps(s', picks, i - 1);
      ShuffleStepsPermute(s', picks, i - 1);
    }
  }

  /** Whatever the random choices, the shuffle only reorders the cards. */
  lemma ShuffledIsPermutation<T>(s: seq<T>, picks: seq<nat>)
    requires ValidPicks(picks, |s|)
    ensures |Shuffled(s, picks)| == |s|
    ensures multiset(Shuffled(s, picks)) == multiset(s)
  {
    ShuffleStepsPermute(s, picks, |s| - 1);
  }

  /** The loop body never runs on fewer than two cards. */
  lemma ShuffleShortUnchanged<T>(s: seq<T>, picks: seq<nat>)
    requires ValidPicks(picks, |s|) && |s| <= 1
    ensures Shuffled(s, picks) == s
  {
  }

  lemma {:induction false} ShuffleStepsIdentity<T>(s: seq<T>, picks: seq<nat>, i: int)
    requires i < |s| && ValidPicks(picks, |s|)
    requires forall k :: 0 <= k < |picks| ==> picks[k] == k
    ensures ShuffleSteps(s, picks, i) == s
    decreases i
  {
    if i > 0 {
      assert Swap(s, i, picks[i]) == s;
      ShuffleStepsIdentity(s, picks, i - 1);
    }
  }

  /** When every step picks its own index (a random source pinned near 1),
      the cards keep their server order. */
  lemma ShuffleIdentityPicks<T>(s: seq<T>, picks: seq<nat>)
    requires ValidPicks(picks, |s|)
    requires forall k :: 0 <= k < |picks| ==> picks[k] == k
    ensures Shuffled(s, picks) == s
  {
    ShuffleStepsIdentity(s, picks, |s| - 1);
  }

  // ---------------------------------------------------------------------
  // Voting: the head card leaves the queue
  // ---------------------------------------------------------------------

  /** What pressing a vote button does: the new queue, and the vote request
      sent, if any. */
  datatype VoteStep = VoteStep(queue: seq<NameRecord>, sent: Option<VoteCall>)

  function HandleVote(names: seq<NameRecord>, vote: Vote): (r: VoteStep)
    ensures names == [] ==> r.queue == [] && r.sent == None
    ensures names != [] ==> [names[0]] + r.queue == names
    ensures names != [] ==> r.sent == Some(VoteCall(names[0].id, vote))
  {
    if |names| == 0 then VoteStep(names, None)
    else VoteStep(names[1..], Some(VoteCall(names[0].id, vote)))
  }

  /** A run of button presses, one vote per press, in order. */
  datatype Session = Session(queue: seq<NameRecord>, sent: seq<VoteCall>)

  function VoteRun(names: seq<NameRecord>, votes: seq<Vote>): Session
    decreases |votes|
  {
    if votes == [] then Session(names, [])
    else
      var step := HandleVote(names, votes[0]);
      var rest := VoteRun(step.queue, votes[1..]);
      Session(rest.queue, (if step.sent.Some? then [step.sent.value] else []) + rest.sent)
  }

  /** After k presses the first k cards are gone (all of them if there were
      fewer), the rest remain in order, and one request went out per removed
      card, for that card's id and with that press's vote. */
  lemma {:induction false} VoteRunPopsPrefix(names: seq<NameRecord>, votes: seq<Vote>)
    ensures var k := if |votes| <= |names| then |votes| else |names|;
      && VoteRun(names, votes).queue == names[k..]
      && |VoteRun(names, votes).sent| == k
      && forall i :: 0 <= i < k ==> VoteRun(names, votes).sent[i] == VoteCall(names[i].id, votes[i])
    decreases |votes|
  {
    if votes != [] {
      VoteRunPopsPrefix(HandleVote(names, votes[0]).queue, votes[1..]);
      if names != [] {
        var k := if |votes| <= |names| then |votes| else |names|;
        assert names[1..][k - 1..] == names[k..];
      }
    }
  }

  /** A single card liked: the like is sent for its id and the queue is
      empty, so the page shows its caught-up state. */
  lemma SingleCardLike(card: NameRecord)
    ensures HandleVote([card], Like) == VoteStep([], Some(VoteCall(card.id, Like)))
  {
  }

  // ---------------------------------------------------------------------
  // Adding a suggestion to the list
  // ---------------------------------------------------------------------

  /** Every item of `items` other than `name`, in order. */
  function RemoveAll(items: seq<string>, name: string): (r: seq<string>)
    ensures name !in r
    ensures forall x :: x != name ==> multiset(r)[x] == multiset(items)[x]
    ensures |r| == |items| - multiset(items)[name]
    decreases |items|
  {
    if items == [] then []
    else
      assert items == [items[0]] + items[1..];
      (if items[0] != name then [items[0]] else []) + RemoveAll(items[1..], name)
  }

  /** `r` lists some of the elements of `s`, in the order they have in `s`. */
  ghost predicate IsSubsequence<T>(r: seq<T>, s: seq<T>)
    decreases |s|
  {
    if r == [] then true
    else if s == [] then false
    else if r[0] == s[0] then IsSubsequence(r[1..], s[1..])
    else IsSubsequence(r, s[1..])
  }

  /** The remaining items keep their relative order. */
  lemma {:induction false} RemoveAllKeepsOrder(items: seq<string>, name: string)
    ensures IsSubsequence(RemoveAll(items, name), items)
    decreases |items|
  {
    if items != [] {
      var rest := RemoveAll(items[1..], name);
      RemoveAllKeepsOrder(items[1..], name);
      if items[0] != name {
        assert RemoveAll(items, name) == [items[0]] + rest;
        assert ([items[0]] + rest)[1..] == rest;
      } else {
        assert RemoveAll(items, name) == rest;
        assert rest != [] ==> rest[0] != items[0];
      }
    }
  }

  /** Removal works piecewise: on a concatenation it removes from each part. */
  lemma {:induction false} RemoveAllAppend(xs: seq<string>, ys: seq<string>, name: string)
    ensures RemoveAll(xs + ys, name) == RemoveAll(xs, name) + RemoveAll(ys, name)
    decreases |xs|
  {
    if xs == [] {
      assert xs + ys == ys;
    } else {
      assert (xs + ys)[1..] == xs[1..] + ys;
      RemoveAllAppend(xs[1..], ys, name);
    }
  }

  /** A name that is not listed leaves the list as it is; in particular a
      second removal of the same name changes nothing. */
  lemma {:induction false} RemoveAllAbsent(items: seq<string>, name: string)
    requires name !in items
    ensures RemoveAll(items, name) == items
    decreases |items|
  {
    if items != [] {
      RemoveAllAbsent(items[1..], name);
    }
  }

  /** The suggestion list shown in the modal. */
  datatype Modal = Modal(title: string, items: seq<string>)

  /** The request that submits a suggestion as a new name. */
  datatype SubmitCall = SubmitCall(name: string, gender: string)

  /** What adding a suggestion does: the request sent, if any, and the new
      modal state. */
  datatype AddStep = AddStep(submitted: Option<SubmitCall>, modal: Option<Modal>)

  /** Add `name` to the name list. Without a current card nothing happens.
      Otherwise it is submitted with the current card's gender. `resolved`
      says whether the submission's promise resolved: the reply arrived and
      was JSON, whatever its status, so a refusal by the server counts as
      resolved. Then `name` disappears from the open modal's items and the
      title stays; when the promise rejects the modal stays. */
  function HandleAddToList(names: seq<NameRecord>, modal: Option<Modal>, name: string, resolved: bool): (r: AddStep)
    ensures names == [] ==> r == AddStep(None, modal)
    ensures names != [] ==> r.submitted == Some(SubmitCall(name, names[0].gender))
    ensures r.modal.Some? <==> modal.Some?
    ensures !resolved ==> r.modal == modal
    ensures names != [] && resolved && modal.Some? ==>
      && r.modal.value.title == modal.value.title
      && name !in r.modal.value.items
      && IsSubsequence(r.modal.value.items, modal.value.items)
      && forall x :: x != name ==> multiset(r.modal.value.items)[x] == multiset(modal.value.items)[x]
  {
    if names == [] then AddStep(None, modal)
    else
      var submitted := Some(SubmitCall(name, names[0].gender));
      if !resolved then AddStep(submitted, modal)
      else match modal
        case None => AddStep(submitted, None)
        case Some(m) =>
          RemoveAllKeepsOrder(m.items, name);
          AddStep(submitted, Some(m.(items := RemoveAll(m.items, name))))
  }
}
