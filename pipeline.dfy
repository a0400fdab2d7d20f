/** The script's `main`: the stages run one after another, the first exception ending the run. */
module Pipeline {
  import opened Wrappers
  import opened Text
  import opened Dicts
  import opened OgSelector
  import opened TaxonPartitioner
  import opened GffIndexer
  import opened Resolver
  import opened FastaFilter

  /** What `main` hands to `searchfasta` (the nt ids looked up per taxon), or the exception
      an earlier stage raises: `ogmembers` before `aa_to_nt` before `bytaxa_nt`. */
  function NtTerms(listog: seq<string>, table: seq<string>, taxa: seq<string>, gffs: seq<GffFile>)
    : Result<Dict<seq<Option<string>>>>
  {
    match OgMembers(OgNames(listog), table)
    case Failure(e) => Failure(e)
    case Success(ogmember) =>
      match GffIndex(gffs)
      case Failure(e) => Failure(e)
      case Success(index) => NtBuckets(Partition(taxa, ogmember.Values()), index)
  }

  /** `main`: the outputs written, in FASTA order, and the exception that ended the run, if
      any. An exception before the FASTA stage writes nothing; after it, every file up to the
      failing one is written. */
  method Run(listog: seq<string>, table: seq<string>, taxa: seq<string>, gffs: seq<GffFile>, fastas: seq<FastaFile>)
    returns (written: seq<Output>, failure: Option<Error>)
    ensures NtTerms(listog, table, taxa, gffs).Failure? ==>
      written == [] && failure == Some(NtTerms(listog, table, taxa, gffs).error)
    ensures NtTerms(listog, table, taxa, gffs).Success? ==>
      var nt := NtTerms(listog, table, taxa, gffs).value;
      && |written| <= |fastas|
      && (forall k :: 0 <= k < |written| ==> FilterFile(fastas[k], nt) == Success(written[k]))
      && (failure.None? <==> |written| == |fastas|)
      && (failure.Some? ==> FilterFile(fastas[|written|], nt) == Failure(failure.value))
  {
    var oglist := OgNames(listog);
    var ogmember := OgMembers(oglist, table);
    if ogmember.Failure? {
      return [], Some(ogmember.error);
    }
    var bytaxaAa := ByTaxaAa(taxa, ogmember.value);
    var aa2nt := AaToNt(gffs);
    if aa2nt.Failure? {
      return [], Some(aa2nt.error);
    }
    var bytaxaNt := ByTaxaNt(bytaxaAa, aa2nt.value);
    if bytaxaNt.Failure? {
      return [], Some(bytaxaNt.error);
    }
    written, failure := SearchFasta(fastas, bytaxaNt.value);
  }

  /** A digit string holds no `|`. */
  lemma NumberNoPipe(n: string)
    requires IsNumber(n)
    ensures '|' !in n
  {
    forall i | 0 <= i < |n| ensures n[i] != '|' {
      assert IsDigit(n[i]);
    }
  }

  /** Every nt id that reaches the FASTA stage is a transcript id some gene line of that
      taxon's GFF files assigns to a protein id of the taxon's bucket. */
  lemma NtTermsFromGff(listog: seq<string>, table: seq<string>, taxa: seq<string>, gffs: seq<GffFile>, t: string, i: nat)
    requires NtTerms(listog, table, taxa, gffs).Success?
    requires var nt := NtTerms(listog, table, taxa, gffs).value;
      i < |TermsFor(nt, t)| && TermsFor(nt, t)[i].Some?
    ensures OgMembers(OgNames(listog), table).Success? && GffIndex(gffs).Success?
    ensures var buckets := Partition(taxa, OgMembers(OgNames(listog), table).value.Values());
      var index := GffIndex(gffs).value;
      var n := TermsFor(NtTerms(listog, table, taxa, gffs).value, t)[i].value;
      && i < |BucketOf(buckets, t)|
      && t in index && BucketOf(buckets, t)[i] in index[t]
      && n == index[t][BucketOf(buckets, t)[i]]
      && IsNumber(n)
  {
    var ogmember := OgMembers(OgNames(listog), table).value;
    var buckets := Partition(taxa, ogmember.Values());
    var index := GffIndex(gffs).value;
    GffIndexNumbers(gffs);
    assert t in buckets.entries;
  }

  /** End to end: when the split keys' inner fields are what the terms meet, a written
      record id is one of the file's ids with an inner `|`-field equal to a looked-up nt id
      (an empty field when the taxon has none), and every such id is written. */
  lemma KeptKeys(listog: seq<string>, table: seq<string>, taxa: seq<string>, gffs: seq<GffFile>, f: FastaFile)
    requires NtTerms(listog, table, taxa, gffs).Success?
    requires FilterFile(f, NtTerms(listog, table, taxa, gffs).value).Success?
    ensures FastaTaxon(f.stem).Some?
    ensures var nt := NtTerms(listog, table, taxa, gffs).value;
      StringTerms(TermsFor(nt, FastaTaxon(f.stem).value)).Some?
    ensures var nt := NtTerms(listog, table, taxa, gffs).value;
      var terms := StringTerms(TermsFor(nt, FastaTaxon(f.stem).value)).value;
      var o := FilterFile(f, nt).value;
      && (forall n :: n in terms ==> IsNumber(n))
      && forall key :: key in o.ids <==> key in f.ids && exists n :: n in Alternatives(terms) && n in InnerFields(key)
  {
    var nt := NtTerms(listog, table, taxa, gffs).value;
    var t := FastaTaxon(f.stem).value;
    var ts := TermsFor(nt, t);
    var terms := StringTerms(ts).value;
    forall n | n in terms ensures IsNumber(n) && '|' !in n {
      var i :| 0 <= i < |terms| && terms[i] == n;
      NtTermsFromGff(listog, table, taxa, gffs, t, i);
      NumberNoPipe(n);
    }
    FilterFileSpec(f, nt);
    forall key ensures Selects(terms, key) <==> exists n :: n in Alternatives(terms) && n in InnerFields(key) {
      SelectsFields(terms, key);
    }
  }
}
