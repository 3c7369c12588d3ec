/**
 * `parson_malloc` and `parson_free`, with an arbitrary schedule of failing requests and the set of
 * blocks that are allocated and not yet freed.
 */
module Memory {

  class Mem {
    /** Which requests fail: any schedule at all. */
    const fails: nat -> bool
    var requests: nat
    ghost var live: set<object>

    constructor (fails: nat -> bool)
      ensures this.fails == fails && requests == 0 && live == {}
    {
      this.fails := fails;
      requests := 0;
      live := {};
    }

    /** Did some request since the `since`-th one fail? */
    ghost predicate FailedSince(since: nat)
      reads this
    {
      exists k | since <= k < requests :: fails(k)
    }

    /** Are the `count` requests from the `since`-th one on granted? */
    ghost predicate Grants(since: nat, count: nat) {
      forall k | since <= k < since + count :: !fails(k)
    }

    /** Asks for `block`, which becomes live exactly when the request is granted. */
    method Malloc(ghost block: object) returns (ok: bool)
      requires block !in live
      modifies this`requests, this`live
      ensures requests == old(requests) + 1 && (ok <==> !fails(old(requests)))
      ensures live == old(live) + if ok then {block} else {}
    {
      ok := !fails(requests);
      requests := requests + 1;
      live := live + if ok then {block} else {};
    }

    /** Only a live block may be freed, so nothing is freed twice. */
    ghost method Free(block: object)
      requires block in live
      modifies this`live
      ensures live == old(live) - {block}
    {
      live := live - {block};
    }
  }
}
