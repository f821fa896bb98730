/** Page requests and page responses. A page request is a zero-based page
    index and a positive page size; the response echoes the page and size
    the caller asked for, beside the records and the total match count. */
module Paging {
  import opened Wrappers
  import opened Errors

  datatype PageRequest = PageRequest(index: nat, size: nat)

  datatype PageResponse<T> = PageResponse(records: seq<T>, total: int, page: int, size: int)

  predicate ValidRequest(r: PageRequest) {
    r.size >= 1
  }

  /** `PageRequest.of`: a negative index or a size below one is an
      illegal argument. */
  function PageRequestOf(index: int, size: int): (r: Outcome<PageRequest>)
    ensures r.Success? <==> index >= 0 && size >= 1
    ensures r.Success? ==> r.value.index == index && r.value.size == size && ValidRequest(r.value)
    ensures r.Failure? ==> r.error.Runtime? && r.error.failure == IllegalArgument
  {
    if index < 0 then Failure(Runtime(IllegalArgument, Some("Page index must not be less than zero")))
    else if size < 1 then Failure(Runtime(IllegalArgument, Some("Page size must not be less than one")))
    else Success(PageRequest(index, size))
  }

  /** The slice of `all` a page request selects. */
  function Slice<T>(all: seq<T>, req: PageRequest): (r: seq<T>)
    ensures |r| <= req.size
    ensures forall j :: 0 <= j < |r| ==> r[j] in all
    ensures forall j :: 0 <= j < |r| ==> req.index * req.size + j < |all| && r[j] == all[req.index * req.size + j]
    ensures req.index * req.size + req.size <= |all| ==> |r| == req.size
    ensures req.index * req.size >= |all| ==> r == []
  {
    var lo := if req.index * req.size < |all| then req.index * req.size else |all|;
    var hi := if lo + req.size < |all| then lo + req.size else |all|;
    all[lo..hi]
  }
}
