/**
  `list_children_paged`: a folder's children come in pages, each reply naming the next page
  in `@odata.nextLink`, and the walk stops at the first reply without one. The replies the
  server would give to the successive requests are an input, in request order.
*/
module Paging {
  import opened Wrappers
  import Tree
  import opened Http

  /** One HTTP reply: status code, the `value` array (missing reads as []) and the next link. */
  datatype Reply = Reply(status: int, value: seq<Tree.Item>, nextLink: Option<string>)

  datatype ListError =
    /** `raise_for_status` raised on this status. */
    | HttpError(status: int)
    /** The supplied replies ended while a next link was still pending. */
    | RepliesExhausted

  /** `while list_url:` goes on only for a next link that is present and non-empty. */
  predicate HasNext(r: Reply) {
    r.nextLink.Some? && r.nextLink.value != ""
  }

  /** The pages yielded for the replies, or the error that stops the walk. */
  function ListChildrenPaged(replies: seq<Reply>): Result<seq<Tree.Page>, ListError>
    decreases |replies|
  {
    if |replies| == 0 then Failure(RepliesExhausted)
    else if RaisesForStatus(replies[0].status) then Failure(HttpError(replies[0].status))
    else if !HasNext(replies[0]) then Success([Tree.Page(replies[0].value)])
    else
      match ListChildrenPaged(replies[1..])
      case Success(rest) => Success([Tree.Page(replies[0].value)] + rest)
      case Failure(e) => Failure(e)
  }

  /**
    A complete chain: no reply is an error, every reply but the last names a next page and
    the last does not.
  */
  ghost predicate Chain(replies: seq<Reply>) {
    && |replies| > 0
    && (forall k :: 0 <= k < |replies| ==> !RaisesForStatus(replies[k].status))
    && (forall k :: 0 <= k < |replies| - 1 ==> HasNext(replies[k]))
    && !HasNext(replies[|replies| - 1])
  }

  /** One page per reply, in order. */
  function PagesOf(replies: seq<Reply>): seq<Tree.Page> {
    seq(|replies|, k requires 0 <= k < |replies| => Tree.Page(replies[k].value))
  }

  /**
    Every page of a complete chain is yielded, in chain order, and whatever the server would
    answer after the last page has no influence.
  */
  lemma {:induction false} ChainYieldsEveryPage(chain: seq<Reply>, later: seq<Reply>)
    requires Chain(chain)
    ensures ListChildrenPaged(chain + later) == Success(PagesOf(chain))
    decreases |chain|
  {
    var all := chain + later;
    assert all[0] == chain[0];
    if |chain| > 1 {
      var tail := chain[1..];
      assert Chain(tail) by {
        forall k | 0 <= k < |tail|
          ensures !RaisesForStatus(tail[k].status)
        {
          assert tail[k] == chain[k + 1];
        }
        forall k | 0 <= k < |tail| - 1
          ensures HasNext(tail[k])
        {
          assert tail[k] == chain[k + 1];
        }
        assert tail[|tail| - 1] == chain[|chain| - 1];
      }
      assert all[1..] == tail + later;
      ChainYieldsEveryPage(tail, later);
      assert PagesOf(chain) == [Tree.Page(chain[0].value)] + PagesOf(tail);
    } else {
      assert PagesOf(chain) == [Tree.Page(chain[0].value)];
    }
  }

  /**
    A successful walk read a complete chain made of the first `n` replies, and yielded one
    page per reply of it.
  */
  lemma {:induction false} SuccessReadsAChain(replies: seq<Reply>) returns (n: nat)
    requires ListChildrenPaged(replies).Success?
    ensures 0 < n <= |replies| && Chain(replies[..n])
    ensures ListChildrenPaged(replies).value == PagesOf(replies[..n])
    decreases |replies|
  {
    if !HasNext(replies[0]) {
      n := 1;
      assert replies[..1] == [replies[0]];
    } else {
      var m := SuccessReadsAChain(replies[1..]);
      n := m + 1;
      var chain := replies[..n];
      var tail := replies[1..][..m];
      assert chain == [replies[0]] + tail;
      forall k | 0 <= k < |chain|
        ensures !RaisesForStatus(chain[k].status)
      {
        if k > 0 {
          assert chain[k] == tail[k - 1];
        }
      }
      forall k | 0 <= k < |chain| - 1
        ensures HasNext(chain[k])
      {
        if k > 0 {
          assert chain[k] == tail[k - 1];
        }
      }
      assert chain[|chain| - 1] == tail[|tail| - 1];
      assert PagesOf(chain) == [Tree.Page(replies[0].value)] + PagesOf(tail);
    }
  }

  /**
    An error reply reached while following the chain stops the whole walk with that status,
    pages already read being lost with it.
  */
  lemma {:induction false} ErrorStopsTheWalk(replies: seq<Reply>, i: nat)
    requires i < |replies| && RaisesForStatus(replies[i].status)
    requires forall k :: 0 <= k < i ==> !RaisesForStatus(replies[k].status) && HasNext(replies[k])
    ensures ListChildrenPaged(replies) == Failure(HttpError(replies[i].status))
    decreases i
  {
    if i > 0 {
      var tail := replies[1..];
      forall k | 0 <= k < i - 1
        ensures !RaisesForStatus(tail[k].status) && HasNext(tail[k])
      {
        assert tail[k] == replies[k + 1];
      }
      ErrorStopsTheWalk(tail, i - 1);
    }
  }
}
