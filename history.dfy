/**
 * The vote history page (src/pages/History.tsx): the list of the user's
 * votes, and the optimistic update that changes the vote shown for one
 * name before the server has answered.
 */
module HistoryPage {

  /** The vote values this page offers. */
  datatype Vote = Like | Dislike | Superlike

  /** One row of the history list. */
  datatype VoteRecord = VoteRecord(nameId: string, vote: Vote, name: string, gender: string, createdAt: string)

  /** The callback given to `map`: a record for the name gets the new vote,
      every other record is kept as it is. */
  function Revote(v: VoteRecord, nameId: string, newVote: Vote): VoteRecord
  {
    if v.nameId == nameId then v.(vote := newVote) else v
  }

  /** The optimistic update: the same list, the records for `nameId`
      showing `newVote`. */
  function UpdateVote(votes: seq<VoteRecord>, nameId: string, newVote: Vote): (r: seq<VoteRecord>)
    ensures |r| == |votes|
    ensures forall i :: 0 <= i < |votes| ==>
      && r[i].nameId == votes[i].nameId && r[i].name == votes[i].name
      && r[i].gender == votes[i].gender && r[i].createdAt == votes[i].createdAt
    ensures forall i :: 0 <= i < |votes| && votes[i].nameId == nameId ==> r[i].vote == newVote
    ensures forall i :: 0 <= i < |votes| && votes[i].nameId != nameId ==> r[i] == votes[i]
    decreases |votes|
  {
    if votes == [] then []
    else [Revote(votes[0], nameId, newVote)] + UpdateVote(votes[1..], nameId, newVote)
  }

  /** Applying the same update a second time changes nothing. */
  lemma UpdateVoteIdempotent(votes: seq<VoteRecord>, nameId: string, newVote: Vote)
    ensures UpdateVote(UpdateVote(votes, nameId, newVote), nameId, newVote) == UpdateVote(votes, nameId, newVote)
  {
  }

  /** Two updates for the same name: the later vote is the one shown. */
  lemma UpdateVoteLastWins(votes: seq<VoteRecord>, nameId: string, first: Vote, second: Vote)
    ensures UpdateVote(UpdateVote(votes, nameId, first), nameId, second) == UpdateVote(votes, nameId, second)
  {
  }

  /** Updates for two different names do not interfere: their order does not
      matter. */
  lemma UpdateVoteCommutes(votes: seq<VoteRecord>, id1: string, v1: Vote, id2: string, v2: Vote)
    requires id1 != id2
    ensures UpdateVote(UpdateVote(votes, id1, v1), id2, v2) == UpdateVote(UpdateVote(votes, id2, v2), id1, v1)
  {
  }

  /** A name with no record in the list leaves the list unchanged. */
  lemma UpdateVoteAbsent(votes: seq<VoteRecord>, nameId: string, newVote: Vote)
    requires forall i :: 0 <= i < |votes| ==> votes[i].nameId != nameId
    ensures UpdateVote(votes, nameId, newVote) == votes
  {
  }
}
