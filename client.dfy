/**
 * The high-level fetches of the preview library: `_getAllMetadata`, which pages
 * through a contract's metadata and normalises it into the annotation index,
 * and `_getAll`, which joins the preview markup and that index with `par`.
 */
module Client {
  import opened Wrappers
  import Http
  import Metadata
  import Paging
  import Par

  /** The annotation index: annotation id to annotation. */
  type Index = map<string, Metadata.Annotation>

  /** The data the two children of `_getAll` deliver. */
  datatype Payload = Markup(html: string) | Indexed(index: Index)

  /** What a child's `callback(err)` or `callback(null, data)` records in `par`. */
  function Record(r: Result<Payload, Http.HttpError>): (o: Par.Outcome<Http.HttpError, Option<Payload>>)
    ensures o.err.Some? <==> r.Failure?
    ensures r.Failure? ==> o.err.value == r.error && o.data.None?
    ensures r.Success? ==> o.data == Some(r.value)
  {
    match r
    case Failure(e) => Par.Outcome(Some(e), None)
    case Success(p) => Par.Outcome(None, Some(p))
  }

  /** The keys under which `_getAll` joins its two children. */
  const HtmlKey: string := "html"
  const MetadataKey: string := "metadata"

  /** The outcomes of `_getAll`'s two children, by key. */
  function Pair(html: Result<Payload, Http.HttpError>, metadata: Result<Payload, Http.HttpError>): map<string, Par.Outcome<Http.HttpError, Option<Payload>>>
  {
    map[HtmlKey := Record(html), MetadataKey := Record(metadata)]
  }

  /** The completion of the two outcomes: a failure if either child failed, with both
      keys' errors; otherwise both keys' data. */
  lemma PairCompletion(html: Result<Payload, Http.HttpError>, metadata: Result<Payload, Http.HttpError>)
    ensures var c := Par.Complete(Pair(html, metadata));
      && (c.Failed? <==> html.Failure? || metadata.Failure?)
      && (c.Failed? ==>
            && c.errors.Keys == {HtmlKey, MetadataKey}
            && c.errors[HtmlKey] == (if html.Failure? then Some(html.error) else None)
            && c.errors[MetadataKey] == (if metadata.Failure? then Some(metadata.error) else None))
      && (c.Succeeded? ==> c.results == map[HtmlKey := Some(html.value), MetadataKey := Some(metadata.value)])
  {
    var res := Pair(html, metadata);
    assert HtmlKey[0] != MetadataKey[0];
    assert HtmlKey in res && MetadataKey in res;
  }

  /** `_getAllMetadata`: all pages from offset 0 with the default limit 25; a failure
      is passed on unchanged, otherwise the items are normalised into the index. */
  method GetAllMetadata(server: Paging.PageServer, ghost bound: int) returns (r: Result<Index, Http.HttpError>)
    requires Paging.Bounded(server, bound)
    ensures var fetched := Paging.Fetch(server, 0, 25, bound);
      && (r.Failure? <==> fetched.Failure?)
      && (r.Failure? ==> r.error == fetched.error)
      && (r.Success? ==> r.value == Metadata.Normalize(fetched.value))
  {
    var items, _ := Paging.GetMetadata(server, None, None, bound);
    match items
    case Failure(e) =>
      r := Failure(e);
    case Success(groups) =>
      var index := Metadata.MassageMetadata(groups);
      r := Success(index);
  }

  /** `par({ html, metadata }, callback)` with the two children settling in either
      order: the first settlement does not fire the callback, the second fires it with
      the completion of both outcomes. */
  method JoinChildren(html: Result<Payload, Http.HttpError>, metadata: Result<Payload, Http.HttpError>, htmlFirst: bool)
    returns (first: Option<Par.Completion<Http.HttpError, Option<Payload>>>,
             second: Option<Par.Completion<Http.HttpError, Option<Payload>>>)
    ensures first.None?
    ensures second == Some(Par.Complete(Pair(html, metadata)))
  {
    var h, m := Record(html), Record(metadata);
    assert HtmlKey[0] != MetadataKey[0];
    var join := new Par.Join({HtmlKey, MetadataKey});
    if htmlFirst {
      first := join.Settle(HtmlKey, h.err, h.data);
      second := join.Settle(MetadataKey, m.err, m.data);
    } else {
      first := join.Settle(MetadataKey, m.err, m.data);
      second := join.Settle(HtmlKey, h.err, h.data);
    }
    assert join.res == Pair(html, metadata);
  }

  /** `_getAll`: joins the preview (already fetched, as `preview`) and the metadata
      index under the keys `html` and `metadata`, the two children settling in
      either order. The join's callback does not fire on the first settlement and
      fires once on the second: with an error map holding both keys if either child
      failed, otherwise with the markup and the index. */
  method GetAll(preview: Result<string, Http.HttpError>, server: Paging.PageServer, ghost bound: int, htmlFirst: bool)
    returns (first: Option<Par.Completion<Http.HttpError, Option<Payload>>>,
             second: Option<Par.Completion<Http.HttpError, Option<Payload>>>)
    requires Paging.Bounded(server, bound)
    ensures first.None? && second.Some?
    ensures var fetched := Paging.Fetch(server, 0, 25, bound);
      second.value.Failed? <==> preview.Failure? || fetched.Failure?
    ensures var fetched := Paging.Fetch(server, 0, 25, bound);
      second.value.Failed? ==>
        && second.value.errors.Keys == {HtmlKey, MetadataKey}
        && second.value.errors[HtmlKey] == (if preview.Failure? then Some(preview.error) else None)
        && second.value.errors[MetadataKey] == (if fetched.Failure? then Some(fetched.error) else None)
    ensures var fetched := Paging.Fetch(server, 0, 25, bound);
      second.value.Succeeded? ==>
        second.value.results == map[HtmlKey := Some(Markup(preview.value)),
                                    MetadataKey := Some(Indexed(Metadata.Normalize(fetched.value)))]
  {
    var index := GetAllMetadata(server, bound);
    var html := match preview case Failure(e) => Failure(e) case Success(s) => Success(Markup(s));
    var metadata := match index case Failure(e) => Failure(e) case Success(i) => Success(Indexed(i));
    first, second := JoinChildren(html, metadata, htmlFirst);
    PairCompletion(html, metadata);
  }
}
