/** The batch summary accumulator (utility/BatchResponse.java). */
module BatchResponses {

  /** One rejected event: its id and the reason code. */
  datatype Rejection = Rejection(eventId: string, reason: string)

  class BatchResponse {
    var accepted: nat
    var deduped: nat
    var updated: nat
    var rejected: nat
    var rejections: seq<Rejection>

    /** The counter of rejections always equals the length of the rejection list. */
    ghost predicate Valid()
      reads this
    {
      rejected == |rejections|
    }

    /** Between two states no counter went down and the rejection list only grew at its end. */
    twostate predicate NothingDecreased()
      reads this
    {
      && old(accepted) <= accepted
      && old(deduped) <= deduped
      && old(updated) <= updated
      && old(rejected) <= rejected
      && old(rejections) <= rejections
    }

    constructor ()
      ensures Valid()
      ensures accepted == 0 && deduped == 0 && updated == 0 && rejected == 0
      ensures rejections == []
    {
      accepted, deduped, updated, rejected := 0, 0, 0, 0;
      rejections := [];
    }

    method AddRejection(eventId: string, reason: string)
      requires Valid()
      modifies this
      ensures Valid() && NothingDecreased()
      ensures rejections == old(rejections) + [Rejection(eventId, reason)]
      ensures rejected == old(rejected) + 1
      ensures accepted == old(accepted) && deduped == old(deduped) && updated == old(updated)
    {
      rejections := rejections + [Rejection(eventId, reason)];
      rejected := rejected + 1;
    }

    method IncrementAccepted()
      requires Valid()
      modifies this
      ensures Valid() && NothingDecreased()
      ensures accepted == old(accepted) + 1
      ensures deduped == old(deduped) && updated == old(updated)
      ensures rejected == old(rejected) && rejections == old(rejections)
    {
      accepted := accepted + 1;
    }

    method IncrementDeduped()
      requires Valid()
      modifies this
      ensures Valid() && NothingDecreased()
      ensures deduped == old(deduped) + 1
      ensures accepted == old(accepted) && updated == old(updated)
      ensures rejected == old(rejected) && rejections == old(rejections)
    {
      deduped := deduped + 1;
    }

    method IncrementUpdated()
      requires Valid()
      modifies this
      ensures Valid() && NothingDecreased()
      ensures updated == old(updated) + 1
      ensures accepted == old(accepted) && deduped == old(deduped)
      ensures rejected == old(rejected) && rejections == old(rejections)
    {
      updated := updated + 1;
    }

    method GetAccepted() returns (n: nat)
      ensures n == accepted
    {
      n := accepted;
    }

    method GetDeduped() returns (n: nat)
      ensures n == deduped
    {
      n := deduped;
    }

    method GetUpdated() returns (n: nat)
      ensures n == updated
    {
      n := updated;
    }

    method GetRejected() returns (n: nat)
      requires Valid()
      ensures n == rejected && n == |rejections|
    {
      n := rejected;
    }

    method GetRejections() returns (rs: seq<Rejection>)
      ensures rs == rejections
    {
      rs := rejections;
    }
  }
}
