/**
 * `_massageMetadata`: turns the metadata groups returned by the API into an
 * index of annotations keyed by `category + "_" + offset`.
 */
module Metadata {
  import opened Wrappers
  import Utils
  import Json

  /** An attribute `{ name, value }`. */
  datatype Kvp = Kvp(name: string, value: Json.Value)

  /** A metadata value `{ value, origin, attributes }` as the API returns it. */
  datatype MetadataValue = MetadataValue(value: Json.Value, origin: string, attributes: seq<Kvp>)

  /** A metadata group `{ name, values }`; the name is a category, possibly with `.Review`. */
  datatype MetadataGroup = MetadataGroup(name: string, values: seq<MetadataValue>)

  /** The derived annotation. `offset` is `None` when the attributes have no
      `scd_start_offset` entry (JavaScript's `undefined`). */
  datatype Annotation = Annotation(
    id: string,
    value: Json.Value,
    origin: string,
    category: string,
    attributes: map<string, Json.Value>,
    offset: Option<Json.Value>,
    inReview: bool)

  const Review := ".Review"
  const OffsetKey := "scd_start_offset"

  function KvpName(x: Kvp): string { x.name }
  function KvpValue(x: Kvp): Json.Value { x.value }

  /** `kvpsToDict(kvps)`: attribute names mapped to values, the last one winning. */
  function Attributes(kvps: seq<Kvp>): map<string, Json.Value>
  {
    Utils.Assign(kvps, KvpName, KvpValue)
  }

  /** `kvpsToDict`, as the loop that writes each attribute into the accumulator. */
  method KvpsToDict(kvps: seq<Kvp>) returns (acc: map<string, Json.Value>)
    ensures acc == Attributes(kvps)
  {
    acc := map[];
    for n := 0 to |kvps|
      invariant acc == Utils.Assign(kvps[..n], KvpName, KvpValue)
    {
      assert kvps[..n + 1][..n] == kvps[..n];
      acc := acc[kvps[n].name := kvps[n].value];
    }
    assert kvps[..|kvps|] == kvps;
  }

  /** Duplicate attribute names keep the last value. */
  lemma AttributesLastWins(kvps: seq<Kvp>, i: int)
    requires 0 <= i < |kvps|
    requires forall j :: i < j < |kvps| ==> kvps[j].name != kvps[i].name
    ensures kvps[i].name in Attributes(kvps)
    ensures Attributes(kvps)[kvps[i].name] == kvps[i].value
  {
    Utils.AssignLastWins(kvps, KvpName, KvpValue, i);
  }

  /** `/\.Review$/.test(s)`. */
  predicate EndsWith(s: string, suffix: string)
  {
    |suffix| <= |s| && s[|s| - |suffix|..] == suffix
  }

  /** `pat` occurs in `s` at position `i`. */
  predicate OccursAt(s: string, pat: string, i: int)
  {
    0 <= i && i + |pat| <= |s| && s[i..i + |pat|] == pat
  }

  /** `s.replace(pat, '')` with a string pattern: the first occurrence of `pat` is
      removed, wherever it is. */
  function RemoveFirst(s: string, pat: string): (r: string)
    ensures |r| == |s| || |r| == |s| - |pat|
    decreases |s|
  {
    if |s| < |pat| then s
    else if s[..|pat|] == pat then s[|pat|..]
    else if s == [] then s
    else [s[0]] + RemoveFirst(s[1..], pat)
  }

  /** Removing the first occurrence: the text before it followed by the text after it. */
  lemma {:induction false} RemoveFirstAt(s: string, pat: string, i: nat)
    requires OccursAt(s, pat, i)
    requires forall j :: 0 <= j < i ==> !OccursAt(s, pat, j)
    ensures RemoveFirst(s, pat) == s[..i] + s[i + |pat|..]
  {
    if i > 0 {
      assert !OccursAt(s, pat, 0);
      assert s[..|pat|] != pat;
      forall j | 0 <= j < i - 1 ensures !OccursAt(s[1..], pat, j) {
        assert !OccursAt(s, pat, j + 1);
        assert s[1..][j..j + |pat|] == s[j + 1..j + 1 + |pat|];
      }
      assert s[1..][i - 1..i - 1 + |pat|] == s[i..i + |pat|];
      RemoveFirstAt(s[1..], pat, i - 1);
      assert s[..i] == [s[0]] + s[1..][..i - 1];
      assert s[i + |pat|..] == s[1..][i - 1 + |pat|..];
    }
  }

  /** Without an occurrence nothing is removed. */
  lemma {:induction false} RemoveFirstAbsent(s: string, pat: string)
    requires forall j :: 0 <= j ==> !OccursAt(s, pat, j)
    ensures RemoveFirst(s, pat) == s
  {
    if |s| >= |pat| {
      assert !OccursAt(s, pat, 0);
      if s != [] {
        forall j | 0 <= j ensures !OccursAt(s[1..], pat, j) {
          assert !OccursAt(s, pat, j + 1);
          if j + |pat| <= |s| - 1 {
            assert s[1..][j..j + |pat|] == s[j + 1..j + 1 + |pat|];
          }
        }
        RemoveFirstAbsent(s[1..], pat);
      }
    }
  }

  /** `String(offset)`; `undefined` when the attribute is missing. */
  function Render(offset: Option<Json.Value>): string
  {
    match offset
    case None => "undefined"
    case Some(v) => Json.ToJsString(v)
  }

  /** `metadataValueToAnn(category, mdv)`. */
  function MetadataValueToAnn(category: string, mdv: MetadataValue): Annotation
  {
    var inReview := EndsWith(category, Review);
    var stripped := RemoveFirst(category, Review);
    var attributes := Attributes(mdv.attributes);
    var offset := if OffsetKey in attributes then Some(attributes[OffsetKey]) else None;
    Annotation(stripped + "_" + Render(offset), mdv.value, mdv.origin, stripped, attributes, offset, inReview)
  }

  /** `ann.offset != null`: loose inequality, so neither `undefined` nor `null` passes. */
  predicate Anchored(a: Annotation)
  {
    a.offset.Some? && a.offset.value != Json.Null
  }

  /** `x.values.map(metadataValueToAnn.bind(null, x.name))`. */
  function ValueAnnotations(g: MetadataGroup): seq<Annotation>
  {
    seq(|g.values|, i requires 0 <= i < |g.values| => MetadataValueToAnn(g.name, g.values[i]))
  }

  /** The same list with `.filter(ann => ann.offset != null)` applied. */
  function GroupAnnotations(g: MetadataGroup): seq<Annotation>
  {
    Utils.Filter(ValueAnnotations(g), Anchored)
  }

  /** `old.map(...)`: one list of anchored annotations per group. */
  function PerGroup(groups: seq<MetadataGroup>): seq<seq<Annotation>>
  {
    seq(|groups|, i requires 0 <= i < |groups| => GroupAnnotations(groups[i]))
  }

  /** `demoLib.flat(old.map(...))`: the anchored annotations, group by group. */
  function Candidates(groups: seq<MetadataGroup>): seq<Annotation>
  {
    Utils.Flat(PerGroup(groups))
  }

  function AnnotationId(a: Annotation): string { a.id }

  /** The index `_massageMetadata` returns. */
  function Normalize(groups: seq<MetadataGroup>): map<string, Annotation>
  {
    Utils.Assign(Candidates(groups), AnnotationId, Utils.Id)
  }

  /** `_massageMetadata(groups)`: the final `reduce` keys every anchored annotation by
      its id, which is `toDict` keyed by `x.id` (`AnnotationId`). */
  method MassageMetadata(groups: seq<MetadataGroup>) returns (index: map<string, Annotation>)
    ensures index == Normalize(groups)
  {
    index := Utils.ToDict(Candidates(groups), AnnotationId);
  }

  /** Groups contribute in order: a group's anchored annotations follow those of all
      earlier groups, in the order of the group's values. */
  lemma CandidatesAppend(groups: seq<MetadataGroup>, g: MetadataGroup)
    ensures Candidates(groups + [g]) == Candidates(groups) + GroupAnnotations(g)
  {
    assert PerGroup(groups + [g]) == PerGroup(groups) + [GroupAnnotations(g)];
    Utils.FlatAppend(PerGroup(groups), [GroupAnnotations(g)]);
    Utils.FlatSingle(GroupAnnotations(g));
  }

  /** The value at position `v` of group `g`, as an annotation. */
  function AnnotationAt(groups: seq<MetadataGroup>, g: nat, v: nat): Annotation
    requires g < |groups| && v < |groups[g].values|
  {
    MetadataValueToAnn(groups[g].name, groups[g].values[v])
  }

  /** The candidates are anchored annotations of values of the input ... */
  lemma CandidatesSound(groups: seq<MetadataGroup>, a: Annotation)
    requires a in Candidates(groups)
    ensures Anchored(a)
    ensures exists g, v :: 0 <= g < |groups| && 0 <= v < |groups[g].values| && a == AnnotationAt(groups, g, v)
  {
    var g := InGroup(groups, a);
    var v := InValues(groups[g], a);
    assert a == AnnotationAt(groups, g, v);
  }

  lemma InGroup(groups: seq<MetadataGroup>, a: Annotation) returns (g: nat)
    requires a in Candidates(groups)
    ensures g < |groups| && a in GroupAnnotations(groups[g])
  {
    Utils.FlatContents(PerGroup(groups));
    g :| 0 <= g < |groups| && a in PerGroup(groups)[g];
  }

  lemma InValues(group: MetadataGroup, a: Annotation) returns (v: nat)
    requires a in GroupAnnotations(group)
    ensures v < |group.values| && Anchored(a) && a == MetadataValueToAnn(group.name, group.values[v])
  {
    var anns, kept := ValueAnnotations(group), GroupAnnotations(group);
    var k :| 0 <= k < |kept| && kept[k] == a;
    assert a in anns;
    v :| 0 <= v < |anns| && anns[v] == a;
  }

  /** ... and every anchored annotation of a value of the input is a candidate. */
  lemma CandidatesComplete(groups: seq<MetadataGroup>, g: nat, v: nat)
    requires g < |groups| && v < |groups[g].values|
    requires Anchored(AnnotationAt(groups, g, v))
    ensures AnnotationAt(groups, g, v) in Candidates(groups)
  {
    var anns := ValueAnnotations(groups[g]);
    assert anns[v] == AnnotationAt(groups, g, v);
    assert AnnotationAt(groups, g, v) in PerGroup(groups)[g];
    Utils.FlatContents(PerGroup(groups));
  }

  /** Every entry of the index is an anchored annotation of the input, stored under
      its own id. */
  lemma IndexSound(groups: seq<MetadataGroup>, k: string)
    requires k in Normalize(groups)
    ensures Normalize(groups)[k].id == k
    ensures Anchored(Normalize(groups)[k])
    ensures exists g, v ::
      0 <= g < |groups| && 0 <= v < |groups[g].values| && Normalize(groups)[k] == AnnotationAt(groups, g, v)
  {
    var i := Utils.AssignEntry(Candidates(groups), AnnotationId, Utils.Id, k);
    CandidatesSound(groups, Candidates(groups)[i]);
  }

  /** Every anchored annotation of the input has an entry under its id. */
  lemma IndexComplete(groups: seq<MetadataGroup>, g: nat, v: nat)
    requires g < |groups| && v < |groups[g].values|
    requires Anchored(AnnotationAt(groups, g, v))
    ensures AnnotationAt(groups, g, v).id in Normalize(groups)
  {
    var c := Candidates(groups);
    CandidatesComplete(groups, g, v);
    var i :| 0 <= i < |c| && c[i] == AnnotationAt(groups, g, v);
    assert AnnotationId(c[i]) in Normalize(groups).Keys;
  }

  /** Later annotations win: the entry under an id is the last candidate with that id. */
  lemma IndexLastWins(groups: seq<MetadataGroup>, i: int)
    requires Utils.LastWithKey(Candidates(groups), AnnotationId, i)
    ensures Normalize(groups)[Candidates(groups)[i].id] == Candidates(groups)[i]
  {
    Utils.AssignLastWins(Candidates(groups), AnnotationId, Utils.Id, i);
  }

  /** A group named `base + ".Review"`, where `base` does not contain `.Review`, is in
      review and has category `base`. */
  lemma ReviewSuffixStripped(base: string)
    requires forall j :: 0 <= j ==> !OccursAt(base, Review, j)
    ensures EndsWith(base + Review, Review)
    ensures RemoveFirst(base + Review, Review) == base
  {
    var s := base + Review;
    var n := |base|;
    assert OccursAt(s, Review, n) by {
      assert s[n..n + |Review|] == Review;
    }
    forall j | 0 <= j < n ensures !OccursAt(s, Review, j) {
      if j + |Review| <= n {
        assert s[j..j + |Review|] == base[j..j + |Review|];
        assert !OccursAt(base, Review, j);
      } else {
        // An occurrence would straddle the end of base, putting the suffix's dot
        // at a position of the pattern that holds a letter.
        assert s[n] == '.';
        assert j + |Review| > n;
      }
    }
    RemoveFirstAt(s, Review, n);
    assert s[..n] == base;
  }

  /** A group name with no `.Review` anywhere is kept as the category, not in review. */
  lemma NoReviewKept(name: string)
    requires forall j :: 0 <= j ==> !OccursAt(name, Review, j)
    ensures !EndsWith(name, Review)
    ensures RemoveFirst(name, Review) == name
  {
    if EndsWith(name, Review) {
      assert OccursAt(name, Review, |name| - |Review|);
    }
    RemoveFirstAbsent(name, Review);
  }

  /** With no earlier occurrence, `.Review` between `a` and `c` is the one removed. */
  lemma RemoveReviewBetween(a: string, c: string)
    requires forall j :: 0 <= j < |a| ==> !OccursAt(a + Review + c, Review, j)
    ensures RemoveFirst(a + Review + c, Review) == a + c
  {
    var s := a + Review + c;
    assert s[|a|..|a| + |Review|] == Review;
    RemoveFirstAt(s, Review, |a|);
    assert s[..|a|] == a && s[|a| + |Review|..] == c;
  }

  /** `.Review` inside a name is removed although the name is not in review:
      `A.ReviewB` gives category `AB`. */
  lemma ReviewInsideName(mdv: MetadataValue)
    ensures MetadataValueToAnn("A.ReviewB", mdv).category == "AB"
    ensures !MetadataValueToAnn("A.ReviewB", mdv).inReview
  {
    var s := "A" + Review + "B";
    assert s == "A.ReviewB";
    assert s[0] != Review[0];
    RemoveReviewBetween("A", "B");
    assert s[|s| - |Review|..][6] == 'B';
  }

  /** Only the first `.Review` goes: `A.Review.Review` is in review with category
      `A.Review`, which still ends in `.Review`. */
  lemma DoubleReview(mdv: MetadataValue)
    ensures MetadataValueToAnn("A.Review.Review", mdv).category == "A.Review"
    ensures MetadataValueToAnn("A.Review.Review", mdv).inReview
  {
    var s := "A" + Review + Review;
    assert s == "A.Review.Review";
    assert s[0] != Review[0];
    RemoveReviewBetween("A", Review);
    assert "A" + Review == "A.Review";
    assert s[|s| - |Review|..] == Review;
  }

  /** `category + "_" + rest` splits back at its last underscore when `rest` has none. */
  lemma {:induction false} SplitAtLastUnderscore(c1: string, r1: string, c2: string, r2: string)
    requires '_' !in r1 && '_' !in r2
    requires c1 + "_" + r1 == c2 + "_" + r2
    ensures c1 == c2 && r1 == r2
  {
    var w := c1 + "_" + r1;
    var w2 := c2 + "_" + r2;
    assert w[|c1|] == '_' && w2[|c2|] == '_';
    assert forall i :: |c1| < i < |w| ==> w[i] == r1[i - |c1| - 1];
    assert forall i :: |c2| < i < |w2| ==> w2[i] == r2[i - |c2| - 1];
    assert c1 == w[..|c1|] == w2[..|c2|] == c2;
    assert r1 == w[|c1| + 1..] == w2[|c2| + 1..] == r2;
  }

  /** Two annotations with numeric offsets collide in the index exactly when they
      share category and offset. */
  lemma IdCollision(c1: string, m1: MetadataValue, n1: int, c2: string, m2: MetadataValue, n2: int)
    requires MetadataValueToAnn(c1, m1).offset == Some(Json.Number(n1))
    requires MetadataValueToAnn(c2, m2).offset == Some(Json.Number(n2))
    ensures MetadataValueToAnn(c1, m1).id == MetadataValueToAnn(c2, m2).id <==>
      MetadataValueToAnn(c1, m1).category == MetadataValueToAnn(c2, m2).category && n1 == n2
  {
    var a, b := MetadataValueToAnn(c1, m1), MetadataValueToAnn(c2, m2);
    Json.DecimalInjective(n1, n2);
    Json.DecimalInjective(n2, n1);
    if a.id == b.id {
      SplitAtLastUnderscore(a.category, Json.Decimal(n1), b.category, Json.Decimal(n2));
    }
  }

  /** A value of a group `base + ".Review"` whose last `scd_start_offset` attribute is
      the number `n` becomes the annotation `base_n`, in review, with category `base`. */
  lemma ReviewedAnnotation(base: string, mdv: MetadataValue, n: int)
    requires forall j :: 0 <= j ==> !OccursAt(base, Review, j)
    requires OffsetKey in Attributes(mdv.attributes) && Attributes(mdv.attributes)[OffsetKey] == Json.Number(n)
    ensures var a := MetadataValueToAnn(base + Review, mdv);
      && a.id == base + "_" + Json.Decimal(n) && a.category == base && a.inReview
      && a.offset == Some(Json.Number(n)) && Anchored(a)
  {
    ReviewSuffixStripped(base);
  }

  /** A value of group `Party.Review` anchored at offset 42 becomes annotation
      `Party_42`, in review, with category `Party`. */
  lemma PartyExample(v: Json.Value, origin: string)
    ensures var a := MetadataValueToAnn("Party.Review", MetadataValue(v, origin, [Kvp(OffsetKey, Json.Number(42))]));
      && a.id == "Party_42" && a.category == "Party" && a.inReview
      && a.offset == Some(Json.Number(42)) && Anchored(a)
  {
    var kvps := [Kvp(OffsetKey, Json.Number(42))];
    assert Attributes(kvps) == map[OffsetKey := Json.Number(42)] by {
      assert kvps[..0] == [];
    }
    ReviewedAnnotation("Party", MetadataValue(v, origin, kvps), 42);
    assert "Party" + Review == "Party.Review";
    assert Json.Decimal(42) == "42" by {
      assert Json.DecimalNat(4) == "4";
    }
    assert "Party" + "_" + "42" == "Party_42";
  }
}
