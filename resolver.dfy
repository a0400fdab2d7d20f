/** The resolver (`bytaxa_nt`): each taxon's aa ids looked up in that taxon's inner map of
    the GFF index. */
module Resolver {
  import opened Wrappers
  import opened Text
  import opened Dicts
  import opened GffIndexer

  /** `inner.get(aa)`. */
  function Lookup(inner: map<string, string>, aa: string): Option<string> {
    if aa in inner then Some(inner[aa]) else None
  }

  /** The nt id of each aa id of a taxon, `None` where the taxon's inner map has none. */
  function Resolution(index: Index, taxon: string, aa: seq<string>): (nts: seq<Option<string>>)
    ensures |nts| == |aa|
    ensures forall i :: 0 <= i < |aa| ==>
      && (nts[i].Some? <==> taxon in index && aa[i] in index[taxon])
      && (nts[i].Some? ==> nts[i].value == index[taxon][aa[i]])
  {
    seq(|aa|, i requires 0 <= i < |aa| => Lookup(Inner(index, taxon), aa[i]))
  }

  /** A taxon with aa ids but no inner map: `aa2nt_dict.get(taxon)` is `None` there and the
      following `.get` raises. */
  predicate Unindexed(index: Index, taxon: string, aa: seq<string>) {
    aa != [] && taxon !in index
  }

  /** `[aa2nt_dict.get(taxon).get(key) for key in aa]`. The comprehension reaches
      `aa2nt_dict.get(taxon)` only when `aa` is non-empty, so a taxon without a GFF file
      fails only then. */
  function ResolveTaxon(index: Index, taxon: string, aa: seq<string>): (r: Result<seq<Option<string>>>)
    ensures r.Failure? <==> Unindexed(index, taxon, aa)
    ensures r.Failure? ==> r.error == NoGffForTaxon(taxon)
    ensures r.Success? ==> r.value == Resolution(index, taxon, aa)
  {
    if aa == [] then Success([])
    else if taxon !in index then Failure(NoGffForTaxon(taxon))
    else Success(seq(|aa|, i requires 0 <= i < |aa| => Lookup(index[taxon], aa[i])))
  }

  /** The position in `bytaxa_aa`'s key order of the first unindexed taxon. */
  function FirstUnindexed(aa: Dict<seq<string>>, index: Index): (r: Option<nat>)
    requires aa.Valid()
    ensures r.Some? ==> r.value < |aa.order| && Unindexed(index, aa.order[r.value], aa.entries[aa.order[r.value]])
    ensures r.Some? ==> forall j :: 0 <= j < r.value ==> !Unindexed(index, aa.order[j], aa.entries[aa.order[j]])
    ensures r.None? ==> forall j :: 0 <= j < |aa.order| ==> !Unindexed(index, aa.order[j], aa.entries[aa.order[j]])
  {
    var bad := (i: nat) => i < |aa.order| && Unindexed(index, aa.order[i], aa.entries[aa.order[i]]);
    assert forall j: nat :: j < |aa.order| ==> (bad(j) <==> Unindexed(index, aa.order[j], aa.entries[aa.order[j]]));
    FirstWhere(0, |aa.order|, bad)
  }

  /** What `bytaxa_nt` returns: the taxa in `bytaxa_aa`'s order, each with the resolution
      of its aa ids; or the exception for the first taxon with aa ids and no GFF file. */
  function NtBuckets(aa: Dict<seq<string>>, index: Index): (r: Result<Dict<seq<Option<string>>>>)
    requires aa.Valid()
    ensures r.Success? ==> r.value.Valid()
  {
    match FirstUnindexed(aa, index)
    case Some(i) => Failure(NoGffForTaxon(aa.order[i]))
    case None => Success(Dict(aa.order, map t | t in aa.entries :: Resolution(index, t, aa.entries[t])))
  }

  /** `bytaxa_nt` fails exactly when some taxon has aa ids but no inner map, and then on the
      first such taxon in key order; otherwise every taxon keeps its place and gets one
      entry per aa id, the nt id where its inner map has one and `None` elsewhere. */
  lemma NtBucketsSpec(aa: Dict<seq<string>>, index: Index)
    requires aa.Valid()
    ensures NtBuckets(aa, index).Failure? <==>
      exists i :: 0 <= i < |aa.order| && Unindexed(index, aa.order[i], aa.entries[aa.order[i]])
    ensures NtBuckets(aa, index).Failure? ==> exists i ::
      && 0 <= i < |aa.order| && Unindexed(index, aa.order[i], aa.entries[aa.order[i]])
      && (forall j :: 0 <= j < i ==> !Unindexed(index, aa.order[j], aa.entries[aa.order[j]]))
      && NtBuckets(aa, index).error == NoGffForTaxon(aa.order[i])
    ensures NtBuckets(aa, index).Success? ==>
      var nt := NtBuckets(aa, index).value;
      && nt.order == aa.order
      && forall t :: t in aa.entries ==>
        && t in nt.entries && |nt.entries[t]| == |aa.entries[t]|
        && forall i :: 0 <= i < |aa.entries[t]| ==>
          && (nt.entries[t][i].Some? <==> t in index && aa.entries[t][i] in index[t])
          && (nt.entries[t][i].Some? ==> nt.entries[t][i].value == index[t][aa.entries[t][i]])
  {
    match FirstUnindexed(aa, index)
    case Some(i) =>
    case None =>
      var nt := NtBuckets(aa, index).value;
      forall t | t in aa.entries
        ensures nt.entries[t] == Resolution(index, t, aa.entries[t])
      {
      }
  }

  /** The resolutions of the taxa `keys`. */
  function ResolvedMap(aa: Dict<seq<string>>, index: Index, keys: seq<string>): map<string, seq<Option<string>>>
    requires forall t :: t in keys ==> t in aa.entries
  {
    map t | t in keys :: Resolution(index, t, aa.entries[t])
  }

  /** One more taxon adds its resolution. */
  lemma ResolvedMapSnoc(aa: Dict<seq<string>>, index: Index, keys: seq<string>, t: string)
    requires forall k :: k in keys ==> k in aa.entries
    requires t in aa.entries
    ensures ResolvedMap(aa, index, keys + [t]) == ResolvedMap(aa, index, keys)[t := Resolution(index, t, aa.entries[t])]
  {
  }

  /** The first unindexed taxon is the one the loop reaches first. */
  lemma FirstUnindexedAt(aa: Dict<seq<string>>, index: Index, i: nat)
    requires aa.Valid() && i < |aa.order|
    requires Unindexed(index, aa.order[i], aa.entries[aa.order[i]])
    requires forall j :: 0 <= j < i ==> !Unindexed(index, aa.order[j], aa.entries[aa.order[j]])
    ensures FirstUnindexed(aa, index) == Some(i)
  {
  }

  /** `bytaxa_nt`: for each taxon of `bytaxa_aa`, in order, the list of nt ids of its aa ids.
      `nucsearch` gets its keys in that order, each once. */
  method ByTaxaNt(aa: Dict<seq<string>>, index: Index) returns (r: Result<Dict<seq<Option<string>>>>)
    requires aa.Valid()
    ensures r == NtBuckets(aa, index)
  {
    var nucsearch: Dict<seq<Option<string>>> := Empty();
    for i := 0 to |aa.order|
      invariant forall j :: 0 <= j < i ==> !Unindexed(index, aa.order[j], aa.entries[aa.order[j]])
      invariant nucsearch.order == aa.order[..i]
      invariant nucsearch.entries == ResolvedMap(aa, index, aa.order[..i])
    {
      var taxon := aa.order[i];
      var nts := ResolveTaxon(index, taxon, aa.entries[taxon]);
      if nts.Failure? {
        FirstUnindexedAt(aa, index, i);
        return Failure(nts.error);
      }
      nucsearch := Dict(nucsearch.order + [taxon], nucsearch.entries[taxon := nts.value]);
      assert aa.order[..i + 1] == aa.order[..i] + [taxon];
      ResolvedMapSnoc(aa, index, aa.order[..i], taxon);
    }
    assert aa.order[..|aa.order|] == aa.order;
    assert ResolvedMap(aa, index, aa.order) == map t | t in aa.entries :: Resolution(index, t, aa.entries[t]);
    return Success(nucsearch);
  }

  /** The number of ids resolved. */
  function Found(nts: seq<Option<string>>): (c: nat)
    ensures c <= |nts|
  {
    if nts == [] then 0 else Found(nts[..|nts| - 1]) + (if nts[|nts| - 1].Some? then 1 else 0)
  }

  /** All of a list resolves exactly when the count of resolved ids is its length. */
  lemma {:induction false} FoundAll(nts: seq<Option<string>>)
    ensures Found(nts) == |nts| <==> forall i :: 0 <= i < |nts| ==> nts[i].Some?
  {
    if nts != [] {
      var n := |nts| - 1;
      FoundAll(nts[..n]);
      assert forall i :: 0 <= i < n ==> nts[..n][i] == nts[i];
    }
  }

  /** A taxon's aa ids all resolve exactly when every one of them is in its inner map; the
      resolved ids are digit strings when the index comes from GFF files. */
  lemma ResolutionComplete(files: seq<GffFile>, taxon: string, aa: seq<string>)
    requires GffIndex(files).Success?
    ensures var nts := Resolution(GffIndex(files).value, taxon, aa);
      && (Found(nts) == |aa| <==> forall i :: 0 <= i < |aa| ==> aa[i] in Inner(GffIndex(files).value, taxon))
      && forall i :: 0 <= i < |aa| && nts[i].Some? ==> IsNumber(nts[i].value)
  {
    FoundAll(Resolution(GffIndex(files).value, taxon, aa));
    GffIndexNumbers(files);
  }
}
