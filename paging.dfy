/**
 * `_getMetadata`: fetches the metadata list page by page. Each page request
 * returns an envelope with the page's items and the server's total count; the
 * next page is requested at `offset + limit` while the total exceeds
 * `offset + limit`.
 */
module Paging {
  import opened Wrappers
  import Utils
  import Http
  import Metadata

  /** The parsed response of one page request: `{ items, meta: { totalCount } }`. */
  datatype Envelope = Envelope(items: seq<Metadata.MetadataGroup>, totalCount: int)

  /** `_getMetadataLimit(id, offset, limit, callback)` for a fixed contract id: what
      the server answers for a page request. */
  type PageServer = (int, int) -> Result<Envelope, Http.HttpError>

  /** Every total count the server reports is at most `bound`. The original code has
      no termination guard; this is the assumption under which it stops. */
  ghost predicate Bounded(server: PageServer, bound: int)
  {
    forall offset, limit :: server(offset, limit).Success? ==> server(offset, limit).value.totalCount <= bound
  }

  /** `opts.x || d`: a missing or zero option falls back to the default. */
  function OrDefault(opt: Option<int>, d: int): (r: int)
    ensures opt.None? || opt.value == 0 ==> r == d
    ensures opt.Some? && opt.value != 0 ==> r == opt.value
  {
    if opt.None? || opt.value == 0 then d else opt.value
  }

  /** What `_getMetadata` delivers to its callback, following its recursion: a failed
      page is passed on unchanged; otherwise the page's items, followed by the items
      of the following pages when the total count exceeds `limit + offset`. */
  ghost function Fetch(server: PageServer, offset: int, limit: int, bound: int): Result<seq<Metadata.MetadataGroup>, Http.HttpError>
    requires limit > 0 && Bounded(server, bound)
    decreases bound - offset
  {
    match server(offset, limit)
    case Failure(e) => Failure(e)
    case Success(env) =>
      if env.totalCount > limit + offset then
        match Fetch(server, offset + limit, limit, bound)
        case Failure(e) => Failure(e)
        case Success(rest) => Success(env.items + rest)
      else Success(env.items)
  }

  /** The offsets of the page requests `_getMetadata` issues, in order. */
  ghost function Requests(server: PageServer, offset: int, limit: int, bound: int): seq<int>
    requires limit > 0 && Bounded(server, bound)
    decreases bound - offset
  {
    match server(offset, limit)
    case Failure(_) => [offset]
    case Success(env) =>
      if env.totalCount > limit + offset then [offset] + Requests(server, offset + limit, limit, bound)
      else [offset]
  }

  /** Items in front of a result; a failure stays a failure. */
  function Prepend(items: seq<Metadata.MetadataGroup>, r: Result<seq<Metadata.MetadataGroup>, Http.HttpError>): Result<seq<Metadata.MetadataGroup>, Http.HttpError>
  {
    match r
    case Failure(e) => Failure(e)
    case Success(rest) => Success(items + rest)
  }

  lemma PrependNothing(r: Result<seq<Metadata.MetadataGroup>, Http.HttpError>)
    ensures Prepend([], r) == r
  {
    if r.Success? { assert [] + r.value == r.value; }
  }

  lemma PrependTwice(a: seq<Metadata.MetadataGroup>, b: seq<Metadata.MetadataGroup>, r: Result<seq<Metadata.MetadataGroup>, Http.HttpError>)
    ensures Prepend(a, Prepend(b, r)) == Prepend(a + b, r)
  {
    if r.Success? { assert a + (b + r.value) == (a + b) + r.value; }
  }

  /** One step of the recursion, as the loop below takes it. */
  lemma FetchStep(server: PageServer, offset: int, limit: int, bound: int)
    requires limit > 0 && Bounded(server, bound)
    ensures server(offset, limit).Failure? ==>
      Fetch(server, offset, limit, bound) == Failure(server(offset, limit).error) &&
      Requests(server, offset, limit, bound) == [offset]
    ensures server(offset, limit).Success? && server(offset, limit).value.totalCount > limit + offset ==>
      bound - (offset + limit) < bound - offset &&
      Fetch(server, offset, limit, bound) == Prepend(server(offset, limit).value.items, Fetch(server, offset + limit, limit, bound)) &&
      Requests(server, offset, limit, bound) == [offset] + Requests(server, offset + limit, limit, bound)
    ensures server(offset, limit).Success? && server(offset, limit).value.totalCount <= limit + offset ==>
      Fetch(server, offset, limit, bound) == Success(server(offset, limit).value.items) &&
      Requests(server, offset, limit, bound) == [offset]
  {
  }

  /** The loop state of `GetMetadata` after the pages before `offset`: `acc` holds
      their items and `requested` their offsets, and what remains to be delivered
      and requested is what the recursion from `offset` delivers and requests. */
  ghost predicate Progress(server: PageServer, start: int, offset: int, limit: int, bound: int,
                           acc: seq<Metadata.MetadataGroup>, requested: seq<int>)
    requires limit > 0 && Bounded(server, bound)
  {
    && Fetch(server, start, limit, bound) == Prepend(acc, Fetch(server, offset, limit, bound))
    && Requests(server, start, limit, bound) == requested + Requests(server, offset, limit, bound)
  }

  lemma ProgressStart(server: PageServer, start: int, limit: int, bound: int)
    requires limit > 0 && Bounded(server, bound)
    ensures Progress(server, start, start, limit, bound, [], [])
  {
    PrependNothing(Fetch(server, start, limit, bound));
  }

  /** A page that fails ends the chain with its error. */
  lemma ProgressFailed(server: PageServer, start: int, offset: int, limit: int, bound: int,
                       acc: seq<Metadata.MetadataGroup>, requested: seq<int>)
    requires limit > 0 && Bounded(server, bound)
    requires Progress(server, start, offset, limit, bound, acc, requested)
    requires server(offset, limit).Failure?
    ensures Fetch(server, start, limit, bound) == Failure(server(offset, limit).error)
    ensures Requests(server, start, limit, bound) == requested + [offset]
  {
    FetchStep(server, offset, limit, bound);
  }

  /** A page whose total count is at most `limit + offset` is the last. */
  lemma ProgressLast(server: PageServer, start: int, offset: int, limit: int, bound: int,
                     acc: seq<Metadata.MetadataGroup>, requested: seq<int>)
    requires limit > 0 && Bounded(server, bound)
    requires Progress(server, start, offset, limit, bound, acc, requested)
    requires server(offset, limit).Success? && server(offset, limit).value.totalCount <= limit + offset
    ensures Fetch(server, start, limit, bound) == Success(acc + server(offset, limit).value.items)
    ensures Requests(server, start, limit, bound) == requested + [offset]
  {
    FetchStep(server, offset, limit, bound);
  }

  /** Any other page adds its items and leads to the request at `offset + limit`. */
  lemma ProgressNext(server: PageServer, start: int, offset: int, limit: int, bound: int,
                     acc: seq<Metadata.MetadataGroup>, requested: seq<int>)
    requires limit > 0 && Bounded(server, bound)
    requires Progress(server, start, offset, limit, bound, acc, requested)
    requires server(offset, limit).Success? && server(offset, limit).value.totalCount > limit + offset
    ensures offset + limit <= bound
    ensures Progress(server, start, offset + limit, limit, bound, acc + server(offset, limit).value.items, requested + [offset])
  {
    FetchStep(server, offset, limit, bound);
    var items := server(offset, limit).value.items;
    var rest := Requests(server, offset + limit, limit, bound);
    PrependTwice(acc, items, Fetch(server, offset + limit, limit, bound));
    assert requested + ([offset] + rest) == (requested + [offset]) + rest;
  }

  /** `_getMetadata(opts, callback)`, its continuation chain run as a loop. Returns
      what reaches the callback and the offsets of the requests made. */
  method GetMetadata(server: PageServer, optOffset: Option<int>, optLimit: Option<int>, ghost bound: int)
    returns (r: Result<seq<Metadata.MetadataGroup>, Http.HttpError>, requested: seq<int>)
    requires OrDefault(optLimit, 25) > 0
    requires Bounded(server, bound)
    ensures r == Fetch(server, OrDefault(optOffset, 0), OrDefault(optLimit, 25), bound)
    ensures requested == Requests(server, OrDefault(optOffset, 0), OrDefault(optLimit, 25), bound)
  {
    var start := OrDefault(optOffset, 0);
    var limit := OrDefault(optLimit, 25);
    var offset := start;
    var acc: seq<Metadata.MetadataGroup> := [];
    requested := [];
    ProgressStart(server, start, limit, bound);
    while true
      invariant Progress(server, start, offset, limit, bound, acc, requested)
      decreases bound - offset
    {
      var page := server(offset, limit);
      if page.Failure? {
        ProgressFailed(server, start, offset, limit, bound, acc, requested);
        return Failure(page.error), requested + [offset];
      }
      var env := page.value;
      if env.totalCount <= limit + offset {
        ProgressLast(server, start, offset, limit, bound, acc, requested);
        return Success(acc + env.items), requested + [offset];
      }
      ProgressNext(server, start, offset, limit, bound, acc, requested);
      requested := requested + [offset];
      acc := acc + env.items;
      offset := offset + limit;
    }
  }

  /** The items of the pages requested at `offsets` (nothing for a failed page). */
  ghost function PageItems(server: PageServer, offsets: seq<int>, limit: int): seq<seq<Metadata.MetadataGroup>>
  {
    seq(|offsets|, i requires 0 <= i < |offsets| =>
      if server(offsets[i], limit).Success? then server(offsets[i], limit).value.items else [])
  }

  lemma FlatCons(a: seq<Metadata.MetadataGroup>, rest: seq<seq<Metadata.MetadataGroup>>)
    ensures Utils.Flat([a] + rest) == a + Utils.Flat(rest)
  {
    Utils.FlatAppend([a], rest);
    assert [a][..0] == [];
  }

  /** The request chain of `_getMetadata`: each request after the first is at the
      previous offset plus `limit`, and is made exactly when the previous page
      succeeded with a total count above `limit` plus its offset. */
  ghost predicate Chain(server: PageServer, offs: seq<int>, limit: int)
  {
    && |offs| >= 1
    && (forall i :: 0 <= i < |offs| - 1 ==>
          && offs[i + 1] == offs[i] + limit
          && server(offs[i], limit).Success?
          && server(offs[i], limit).value.totalCount > limit + offs[i])
    && (var last := server(offs[|offs| - 1], limit);
        last.Failure? || last.value.totalCount <= limit + offs[|offs| - 1])
  }

  /** The first request is at the starting offset, and the requests form a chain. */
  lemma {:induction false} RequestsChain(server: PageServer, offset: int, limit: int, bound: int)
    requires limit > 0 && Bounded(server, bound)
    ensures var offs := Requests(server, offset, limit, bound);
      offs[0] == offset && Chain(server, offs, limit)
    decreases bound - offset
  {
    var offs := Requests(server, offset, limit, bound);
    var page := server(offset, limit);
    if page.Success? && page.value.totalCount > limit + offset {
      RequestsChain(server, offset + limit, limit, bound);
      var rest := Requests(server, offset + limit, limit, bound);
      assert offs == [offset] + rest;
      forall i | 0 <= i < |offs| - 1
        ensures offs[i + 1] == offs[i] + limit
        ensures server(offs[i], limit).Success? && server(offs[i], limit).value.totalCount > limit + offs[i]
      {
        if i > 0 { assert offs[i] == rest[i - 1] && offs[i + 1] == rest[i]; }
      }
    } else {
      assert offs == [offset];
    }
  }

  /** What reaches the callback: if the last page failed, its error unchanged and no
      items; otherwise the items of all requested pages, in request order. */
  lemma {:induction false} FetchResult(server: PageServer, offset: int, limit: int, bound: int)
    requires limit > 0 && Bounded(server, bound)
    ensures var offs := Requests(server, offset, limit, bound);
      var last := server(offs[|offs| - 1], limit);
      Fetch(server, offset, limit, bound) ==
        if last.Failure? then Failure(last.error) else Success(Utils.Flat(PageItems(server, offs, limit)))
    decreases bound - offset
  {
    var offs := Requests(server, offset, limit, bound);
    var page := server(offset, limit);
    if page.Success? && page.value.totalCount > limit + offset {
      FetchResult(server, offset + limit, limit, bound);
      var rest := Requests(server, offset + limit, limit, bound);
      assert offs == [offset] + rest;
      assert offs[|offs| - 1] == rest[|rest| - 1];
      assert PageItems(server, offs, limit) == [page.value.items] + PageItems(server, rest, limit);
      FlatCons(page.value.items, PageItems(server, rest, limit));
    } else {
      assert offs == [offset];
      var items := if page.Success? then page.value.items else [];
      assert PageItems(server, offs, limit) == [items];
      Utils.FlatSingle(items);
    }
  }

  function Clamp(i: int, n: nat): nat
  {
    if i < 0 then 0 else if i > n then n else i
  }

  /** Items `offset` up to `offset + limit` of `all`, cut to the list. */
  function Slice(all: seq<Metadata.MetadataGroup>, offset: int, limit: int): seq<Metadata.MetadataGroup>
  {
    var lo, hi := Clamp(offset, |all|), Clamp(offset + limit, |all|);
    if hi < lo then [] else all[lo..hi]
  }

  /** A server that answers every page request with a slice of one fixed list and the
      list's length as total count. */
  function SliceServer(all: seq<Metadata.MetadataGroup>): PageServer
  {
    (offset: int, limit: int) => Success(Envelope(Slice(all, offset, limit), |all|))
  }

  /** The number of requests needed for `n` remaining items, `limit` per page. */
  function PageCount(n: int, limit: int): nat
    requires limit > 0
    decreases n
  {
    if n <= limit then 1 else 1 + PageCount(n - limit, limit)
  }

  lemma {:induction false} PageCountIsCeiling(n: nat, limit: int)
    requires limit > 0
    ensures PageCount(n, limit) == if n == 0 then 1 else (n + limit - 1) / limit
    decreases n
  {
    if n > limit {
      PageCountIsCeiling(n - limit, limit);
      DivStep(n + limit - 1, limit);
      assert n - limit + limit - 1 == n + limit - 1 - limit;
    } else if n > 0 {
      assert limit <= n + limit - 1 < 2 * limit;
      DivOne(n + limit - 1, limit);
    }
  }

  lemma DivStep(x: int, d: int)
    requires d > 0 && x >= d
    ensures (x - d) / d == x / d - 1
  {
    var q, r := x / d, x % d;
    assert x == q * d + r;
    assert x - d == (q - 1) * d + r;
    DivUnique(x - d, d, q - 1, r);
  }

  lemma DivOne(x: int, d: int)
    requires d > 0 && d <= x < 2 * d
    ensures x / d == 1
  {
    DivUnique(x, d, 1, x - d);
  }

  lemma DivUnique(x: int, d: int, q: int, r: int)
    requires d > 0 && 0 <= r < d && x == q * d + r
    ensures x / d == q
  {
    var q', r' := x / d, x % d;
    assert x == q' * d + r';
    assert (q' - q) * d == r - r';
    if q' > q {
      MulAtLeast(q' - q, d);
    } else if q' < q {
      MulAtLeast(q - q', d);
    }
  }

  lemma MulAtLeast(k: int, d: int)
    requires k >= 1 && d > 0
    ensures k * d >= d
  {
    assert k * d == (k - 1) * d + d;
  }

  /** Served from a fixed list, fetching from offset `offset` delivers the rest of the
      list, with one request per page. */
  lemma {:induction false} SliceFetchFrom(all: seq<Metadata.MetadataGroup>, offset: nat, limit: int)
    requires limit > 0 && offset <= |all|
    requires Bounded(SliceServer(all), |all|)
    ensures Fetch(SliceServer(all), offset, limit, |all|) == Success(all[offset..])
    ensures |Requests(SliceServer(all), offset, limit, |all|)| == PageCount(|all| - offset, limit)
    decreases |all| - offset
  {
    var server := SliceServer(all);
    assert server(offset, limit) == Success(Envelope(Slice(all, offset, limit), |all|));
    if |all| > limit + offset {
      SliceFetchFrom(all, offset + limit, limit);
      assert Slice(all, offset, limit) == all[offset..offset + limit];
      assert all[offset..] == all[offset..offset + limit] + all[offset + limit..];
    } else {
      assert Slice(all, offset, limit) == all[offset..];
    }
  }

  lemma SliceServerBounded(all: seq<Metadata.MetadataGroup>)
    ensures Bounded(SliceServer(all), |all|)
  {
  }

  /** Pagination completeness: served from a fixed list of `T` items, `_getMetadata`
      from offset 0 with limit `L > 0` delivers exactly the list, using
      `max(1, ceil(T / L))` requests at offsets `0, L, 2L, ...`. */
  lemma SlicePagination(all: seq<Metadata.MetadataGroup>, limit: int)
    requires limit > 0
    ensures Bounded(SliceServer(all), |all|)
    ensures Fetch(SliceServer(all), 0, limit, |all|) == Success(all)
    ensures var offs := Requests(SliceServer(all), 0, limit, |all|);
      && |offs| == (if |all| == 0 then 1 else (|all| + limit - 1) / limit)
      && forall i :: 0 <= i < |offs| ==> offs[i] == i * limit
  {
    SliceServerBounded(all);
    SliceFetchFrom(all, 0, limit);
    PageCountIsCeiling(|all|, limit);
    SliceOffsets(all, limit);
  }

  lemma SliceOffsets(all: seq<Metadata.MetadataGroup>, limit: int)
    requires limit > 0 && Bounded(SliceServer(all), |all|)
    ensures var offs := Requests(SliceServer(all), 0, limit, |all|);
      forall i :: 0 <= i < |offs| ==> offs[i] == i * limit
  {
    RequestsChain(SliceServer(all), 0, limit, |all|);
    var offs := Requests(SliceServer(all), 0, limit, |all|);
    forall i | 0 <= i < |offs| ensures offs[i] == i * limit {
      OffsetsAreMultiples(offs, limit, i);
    }
  }

  lemma {:induction false} OffsetsAreMultiples(offs: seq<int>, limit: int, i: nat)
    requires i < |offs| && |offs| >= 1 && offs[0] == 0
    requires forall j :: 0 <= j < |offs| - 1 ==> offs[j + 1] == offs[j] + limit
    ensures offs[i] == i * limit
  {
    if i > 0 {
      OffsetsAreMultiples(offs, limit, i - 1);
      assert offs[i] == offs[i - 1] + limit;
    }
  }

  /** The example of 60 items fetched 25 at a time: three requests, at 0, 25 and 50. */
  lemma SixtyItems(all: seq<Metadata.MetadataGroup>)
    requires |all| == 60
    ensures Requests(SliceServer(all), 0, 25, 60) == [0, 25, 50]
    ensures Fetch(SliceServer(all), 0, 25, 60) == Success(all)
  {
    SlicePagination(all, 25);
  }
}
