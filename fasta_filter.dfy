/** The FASTA filter (`searchfasta`): for each FASTA file, the record ids that carry one of
    its taxon's nt ids as a `|`-bounded field, in file order. */
module FastaFilter {
  import opened Wrappers
  import opened Text
  import opened Dicts

  /** A FASTA file as the stem of its name and its record ids in file order. */
  datatype FastaFile = FastaFile(stem: string, ids: seq<string>)

  /** One output file: its name and the ids of the records written to it, in order. */
  datatype Output = Output(name: string, ids: seq<string>)

  // ---------------------------------------------------------------- taxon from the file name

  /** `^(.+)_.+transcripts` can close its group at `p`: `_` at `p`, at least one character
      after it, then `transcripts`, and no newline up to `transcripts`. */
  predicate FastaCut(stem: string, p: nat) {
    && 1 <= p < |stem|
    && stem[p] == '_'
    && exists q: nat :: p + 2 <= q < |stem| && TranscriptsAt(stem, q)
  }

  /** `transcripts` at `q`, with no newline before it. */
  predicate TranscriptsAt(stem: string, q: nat) {
    && q + 11 <= |stem| && stem[q..q + 11] == "transcripts"
    && forall k :: 0 <= k < q ==> stem[k] != '\n'
  }

  /** Where the greedy `(.+)` closes: the last position that works. */
  function FastaCutAt(stem: string): (r: Option<nat>)
    ensures r.Some? ==> r.value < |stem| && FastaCut(stem, r.value)
    ensures r.Some? ==> forall p: nat :: r.value < p < |stem| ==> !FastaCut(stem, p)
    ensures r.None? ==> forall p: nat :: p < |stem| ==> !FastaCut(stem, p)
  {
    var cut := (p: nat) => FastaCut(stem, p);
    assert forall p: nat :: cut(p) == FastaCut(stem, p);
    LastWhere(0, |stem|, cut)
  }

  /** `fname.search(stem).group(1)`: the longest prefix of the stem followed by `_`, at
      least one character and `transcripts`; a stem with no such prefix has none. */
  function FastaTaxon(stem: string): (r: Option<string>)
    ensures r.None? <==> forall p: nat :: p < |stem| ==> !FastaCut(stem, p)
    ensures r.Some? ==>
      && |r.value| < |stem| && r.value == stem[..|r.value|] && r.value != []
      && FastaCut(stem, |r.value|)
      && forall p: nat :: |r.value| < p < |stem| ==> !FastaCut(stem, p)
  {
    match FastaCutAt(stem)
    case None => None
    case Some(p) => Some(stem[..p])
  }

  /** `taxa + '.filtered.nt.fasta'`. */
  function OutputName(taxon: string): string {
    taxon + ".filtered.nt.fasta"
  }

  // ---------------------------------------------------------------- the term pattern

  /** `sep.join(ts)`. */
  function Join(ts: seq<string>, sep: string): string {
    if ts == [] then ""
    else if |ts| == 1 then ts[0]
    else Join(ts[..|ts| - 1], sep) + sep + ts[|ts| - 1]
  }

  /** `'\|' + '\||\|'.join(terms) + '\|'`, the source text of the compiled pattern. */
  function TermPattern(terms: seq<string>): string {
    "\\|" + Join(terms, "\\||\\|") + "\\|"
  }

  /** The terms the pattern's alternatives carry: an empty term list still leaves one
      alternative, with the empty term. */
  function Alternatives(terms: seq<string>): seq<string> {
    if terms == [] then [""] else terms
  }

  /** The pattern source of one alternative, `\|n\|`: an escaped `|`, the term, an escaped `|`. */
  function Escaped(n: string): string {
    "\\|" + n + "\\|"
  }

  /** The escaped forms of the terms, in order. */
  function EscapedAll(ts: seq<string>): (es: seq<string>)
    ensures |es| == |ts|
    ensures forall i :: 0 <= i < |ts| ==> es[i] == Escaped(ts[i])
  {
    if ts == [] then [] else EscapedAll(ts[..|ts| - 1]) + [Escaped(ts[|ts| - 1])]
  }

  /** The pattern is the `|`-alternation of the escaped terms; with no terms it is the one
      alternative `\|\|`. */
  lemma {:induction false} TermPatternAlternation(terms: seq<string>)
    ensures TermPattern(terms) == Join(EscapedAll(Alternatives(terms)), "|")
  {
    if terms == [] {
      assert EscapedAll([""]) == [Escaped("")];
    } else if |terms| == 1 {
      assert EscapedAll(terms) == EscapedAll(terms[..0]) + [Escaped(terms[0])];
    } else {
      var n := |terms| - 1;
      var init, last := terms[..n], terms[n];
      TermPatternAlternation(init);
      var es := EscapedAll(terms);
      assert es[..n] == EscapedAll(init);
      var j := Join(init, "\\||\\|");
      assert TermPattern(terms) == "\\|" + (j + "\\||\\|" + last) + "\\|";
      PatternSnoc(j, last);
      assert Join(es, "|") == Join(EscapedAll(init), "|") + "|" + Escaped(last);
    }
  }

  /** Joining one more term with the separator `\||\|` adds one more escaped alternative. */
  lemma PatternSnoc(j: string, last: string)
    ensures "\\|" + (j + "\\||\\|" + last) + "\\|" == ("\\|" + j + "\\|") + "|" + Escaped(last)
  {
    var x := "\\|" + j;
    AppendAssoc(x, "\\||\\|", last);
    AppendAssoc(x, "\\||\\|" + last, "\\|");
    assert "\\||\\|" == "\\|" + "|" + "\\|";
    AppendAssoc(x + "\\|" + "|", "\\|" + last, "\\|");
  }

  /** The empty term list gives `\|\|`. */
  lemma TermPatternEmpty()
    ensures TermPattern([]) == "\\|\\|"
  {
  }

  // ---------------------------------------------------------------- which keys are kept

  /** The text `\|n\|` matches: `n` between two `|`. */
  function Bounded(n: string): string {
    "|" + n + "|"
  }

  /** `sterms.search(key)`: the key contains the text of one of the alternatives. */
  predicate Selects(terms: seq<string>, key: string) {
    exists n :: n in Alternatives(terms) && Contains(key, Bounded(n))
  }

  /** `list(filter(sterms.search, keys))`. */
  function KeepKeys(terms: seq<string>, keys: seq<string>): seq<string> {
    if keys == [] then []
    else KeepKeys(terms, keys[..|keys| - 1]) + (if Selects(terms, keys[|keys| - 1]) then [keys[|keys| - 1]] else [])
  }

  /** The kept keys are exactly the selected ones, each kept as often as it occurs, never
      more keys than there are. */
  lemma {:induction false} KeepKeysMembers(terms: seq<string>, keys: seq<string>)
    ensures |KeepKeys(terms, keys)| <= |keys|
    ensures forall k :: k in KeepKeys(terms, keys) <==> k in keys && Selects(terms, k)
  {
    if keys != [] {
      var n := |keys| - 1;
      KeepKeysMembers(terms, keys[..n]);
      assert keys == keys[..n] + [keys[n]];
    }
  }

  /** Filtering keeps input order: the kept keys of two blocks are those of the first block
      followed by those of the second. */
  lemma {:induction false} KeepKeysConcat(terms: seq<string>, a: seq<string>, b: seq<string>)
    ensures KeepKeys(terms, a + b) == KeepKeys(terms, a) + KeepKeys(terms, b)
  {
    if b == [] {
      assert a + b == a;
    } else {
      var n := |b| - 1;
      assert (a + b)[..|a + b| - 1] == a + b[..n];
      KeepKeysConcat(terms, a, b[..n]);
      AppendAssoc(KeepKeys(terms, a), KeepKeys(terms, b[..n]), if Selects(terms, b[n]) then [b[n]] else []);
    }
  }

  // ---------------------------------------------------------------- pipe-separated fields

  /** `s.split('|')`. */
  function Fields(s: string): (r: seq<string>)
    ensures |r| >= 1
    decreases |s|
  {
    if s == [] then [""]
    else if s[0] == '|' then [""] + Fields(s[1..])
    else var rest := Fields(s[1..]); [[s[0]] + rest[0]] + rest[1..]
  }

  /** The fields that have a `|` on both sides. */
  function InnerFields(s: string): seq<string> {
    var f := Fields(s);
    if |f| < 2 then [] else f[1..|f| - 1]
  }

  /** A string without `|` is one field. */
  lemma {:induction false} FieldsNoPipe(a: string)
    requires '|' !in a
    ensures Fields(a) == [a]
    decreases |a|
  {
    if a != [] {
      assert '|' !in a[1..];
      FieldsNoPipe(a[1..]);
      assert [a[0]] + a[1..] == a;
    }
  }

  /** A `|`-free first field splits off at the first `|`. */
  lemma {:induction false} FieldsSplit(a: string, r: string)
    requires '|' !in a
    ensures Fields(a + "|" + r) == [a] + Fields(r)
    decreases |a|
  {
    var s := a + "|" + r;
    if a == [] {
      assert s == "|" + r && s[1..] == r;
    } else {
      assert s[0] == a[0] && s[1..] == a[1..] + "|" + r;
      assert '|' !in a[1..];
      FieldsSplit(a[1..], r);
      assert [a[0]] + a[1..] == a;
    }
  }

  /** The first `|` of a string that has one. */
  lemma {:induction false} FirstPipe(s: string) returns (a: string, r: string)
    requires '|' in s
    ensures s == a + "|" + r && '|' !in a
    decreases |s|
  {
    if s[0] == '|' {
      a, r := [], s[1..];
    } else {
      var a', r' := FirstPipe(s[1..]);
      a, r := [s[0]] + a', r';
      assert s == [s[0]] + s[1..];
    }
  }

  /** A pattern that starts with `|` cannot start inside a `|`-free prefix. */
  lemma {:induction false} SkipNoPipe(a: string, x: string, p: string)
    requires '|' !in a && p != [] && p[0] == '|'
    ensures Contains(a + x, p) <==> Contains(x, p)
    decreases |a|
  {
    if a != [] {
      assert (a + x)[0] == a[0] && (a + x)[1..] == a[1..] + x;
      assert '|' !in a[1..];
      SkipNoPipe(a[1..], x, p);
    } else {
      assert a + x == x;
    }
  }

  /** `n + "|"` starts a string whose first field is `b` exactly when `n` is `b`. */
  lemma FirstFieldPrefix(n: string, b: string, r2: string)
    requires '|' !in n && '|' !in b
    ensures n + "|" <= b + "|" + r2 <==> n == b
  {
    var r := b + "|" + r2;
    if n + "|" <= r {
      assert r[|n|] == '|';
      forall i | 0 <= i < |b| ensures r[i] != '|' {
        assert r[i] == b[i] && b[i] in b;
      }
      forall i | 0 <= i < |n| ensures r[i] != '|' {
        assert r[i] == n[i] && n[i] in n;
      }
      assert r[|b|] == '|';
      assert |n| == |b|;
      assert n == r[..|n|] == b;
    }
  }

  /** After a `|`-free first field, `|n|` occurs exactly where the first `|` starts it or
      further on. */
  lemma ContainsAfterFirstPipe(a: string, r: string, n: string)
    requires '|' !in a
    ensures Contains(a + "|" + r, Bounded(n)) <==> n + "|" <= r || Contains(r, Bounded(n))
  {
    var p := Bounded(n);
    AppendAssoc(a, "|", r);
    SkipNoPipe(a, "|" + r, p);
    assert ("|" + r)[1..] == r;
    assert Contains("|" + r, p) <==> p <= "|" + r || Contains(r, p);
    AppendAssoc("|", n, "|");
    assert p <= "|" + r <==> n + "|" <= r;
  }

  /** No `|n|` occurs in a `|`-free string. */
  lemma NoBoundedWithoutPipe(r: string, n: string)
    requires '|' !in r
    ensures !Contains(r, Bounded(n)) && !(n + "|" <= r)
  {
    SkipNoPipe(r, [], Bounded(n));
    assert r + [] == r;
    forall i | 0 <= i < |r| ensures r[i] != '|' {
      assert r[i] in r;
    }
    assert (n + "|")[|n|] == '|';
  }

  /** The inner part of a list with one more element in front. */
  lemma DropEnds<T>(x: T, f: seq<T>)
    requires |f| >= 1
    ensures ([x] + f)[1..|f|] == f[..|f| - 1]
    ensures ([x] + f)[..|f|] == [x] + f[..|f| - 1]
  {
  }

  /** For a term without `|`, the key contains `|n|` exactly when `n` is one of its inner
      `|`-separated fields. */
  lemma {:induction false} BoundedIsField(s: string, n: string)
    requires '|' !in n
    ensures Contains(s, Bounded(n)) <==> n in InnerFields(s)
    decreases |s|
  {
    if '|' !in s {
      FieldsNoPipe(s);
      NoBoundedWithoutPipe(s, n);
    } else {
      var a, r := FirstPipe(s);
      FieldsSplit(a, r);
      ContainsAfterFirstPipe(a, r, n);
      if '|' !in r {
        FieldsNoPipe(r);
        NoBoundedWithoutPipe(r, n);
        assert Fields(s) == [a, r];
      } else {
        var b, r2 := FirstPipe(r);
        FieldsSplit(b, r2);
        FirstFieldPrefix(n, b, r2);
        BoundedIsField(r, n);
        DropEnds(a, Fields(r));
        DropEnds(b, Fields(r2));
      }
    }
  }

  /** For terms without `|`, selection is field-set membership: a key is kept exactly when
      one of its inner fields is one of the terms (the empty field for an empty term list). */
  lemma SelectsFields(terms: seq<string>, key: string)
    requires forall n :: n in terms ==> '|' !in n
    ensures Selects(terms, key) <==> exists n :: n in Alternatives(terms) && n in InnerFields(key)
  {
    forall n | n in Alternatives(terms) ensures Contains(key, Bounded(n)) <==> n in InnerFields(key) {
      BoundedIsField(key, n);
    }
  }

  /** The fields of `a|b|c|d` for `|`-free parts. */
  lemma FourFields(a: string, b: string, c: string, d: string)
    requires '|' !in a && '|' !in b && '|' !in c && '|' !in d
    ensures InnerFields(a + "|" + (b + "|" + (c + "|" + d))) == [b, c]
  {
    FieldsNoPipe(d);
    FieldsSplit(c, d);
    FieldsSplit(b, c + "|" + d);
    FieldsSplit(a, b + "|" + (c + "|" + d));
  }

  /** A single `|`-free term selects `a|b|c|d` exactly when it is `b` or `c`. */
  lemma SelectsOneOfFour(n: string, a: string, b: string, c: string, d: string)
    requires '|' !in n && '|' !in a && '|' !in b && '|' !in c && '|' !in d
    ensures Selects([n], a + "|" + (b + "|" + (c + "|" + d))) <==> n == b || n == c
  {
    var key := a + "|" + (b + "|" + (c + "|" + d));
    FourFields(a, b, c, d);
    SelectsFields([n], key);
    assert Alternatives([n]) == [n];
    assert n in InnerFields(key) <==> n == b || n == c;
  }

  /** The term `302` does not select the id field `3020`. */
  lemma PipeBoundaryMiss()
    ensures !Selects(["302"], "jgi|Xylcub1|3020|x")
  {
    SelectsOneOfFour("302", "jgi", "Xylcub1", "3020", "x");
    assert "jgi|Xylcub1|3020|x" == "jgi" + "|" + ("Xylcub1" + "|" + ("3020" + "|" + "x"));
    assert |"302"| == 3 && |"Xylcub1"| == 7 && |"3020"| == 4;
  }

  /** The term `302` selects the id field `302`. */
  lemma PipeBoundaryHit()
    ensures Selects(["302"], "jgi|Xylcub1|302|x")
  {
    SelectsOneOfFour("302", "jgi", "Xylcub1", "302", "x");
    assert "jgi|Xylcub1|302|x" == "jgi" + "|" + ("Xylcub1" + "|" + ("302" + "|" + "x"));
  }

  // ---------------------------------------------------------------- one FASTA file

  /** `bytaxa_nt_dict[taxa]`: `nucsearch` is a `defaultdict(list)`, so a taxon it lacks
      reads as an empty term list. */
  function TermsFor(nt: Dict<seq<Option<string>>>, taxon: string): seq<Option<string>> {
    if taxon in nt.entries then nt.entries[taxon] else []
  }

  /** The terms as strings, or `None` when a missing nt id is among them: `join` raises on it. */
  function StringTerms(ts: seq<Option<string>>): (r: Option<seq<string>>)
    ensures r.None? <==> exists i :: 0 <= i < |ts| && ts[i].None?
    ensures r.Some? ==> |r.value| == |ts| && forall i :: 0 <= i < |ts| ==> ts[i] == Some(r.value[i])
  {
    if ts == [] then Some([])
    else
      var n := |ts| - 1;
      match StringTerms(ts[..n])
      case None => None
      case Some(init) =>
        match ts[n]
        case None => None
        case Some(t) => Some(init + [t])
  }

  /** `ids[j]` repeats an earlier id. */
  predicate RepeatsEarlier(ids: seq<string>, j: nat) {
    j < |ids| && ids[j] in ids[..j]
  }

  /** The first record whose id repeats an earlier one: where `SeqIO.to_dict` raises. */
  function FirstDuplicate(ids: seq<string>): (r: Option<nat>)
    ensures r.Some? ==> r.value < |ids| && RepeatsEarlier(ids, r.value)
    ensures r.Some? ==> forall j: nat :: j < r.value ==> !RepeatsEarlier(ids, j)
    ensures r.None? <==> forall i, j :: 0 <= i < j < |ids| ==> ids[i] != ids[j]
  {
    var rep := (j: nat) => RepeatsEarlier(ids, j);
    assert forall j: nat :: rep(j) == RepeatsEarlier(ids, j);
    var r := FirstWhere(0, |ids|, rep);
    assert r.None? ==> forall i, j :: 0 <= i < j < |ids| ==> ids[i] != ids[j] by {
      if r.None? {
        forall i, j | 0 <= i < j < |ids| ensures ids[i] != ids[j] {
          assert !RepeatsEarlier(ids, j) && ids[..j][i] == ids[i];
        }
      }
    }
    r
  }

  /** What `searchfasta` writes for one FASTA file, or the exception it raises there: a
      name without a taxon, a missing nt id among the terms, a repeated record id. */
  function FilterFile(f: FastaFile, nt: Dict<seq<Option<string>>>): Result<Output> {
    match FastaTaxon(f.stem)
    case None => Failure(MalformedFastaName(f.stem))
    case Some(taxon) =>
      match StringTerms(TermsFor(nt, taxon))
      case None => Failure(NoneSearchTerm(taxon))
      case Some(terms) =>
        match FirstDuplicate(f.ids)
        case Some(j) => Failure(DuplicateRecordId(f.ids[j]))
        case None => Success(Output(OutputName(taxon), KeepKeys(terms, f.ids)))
  }

  /** A file is written under `<taxon>.filtered.nt.fasta` with exactly its selected record
      ids, in file order and each once. */
  lemma FilterFileSpec(f: FastaFile, nt: Dict<seq<Option<string>>>)
    requires FilterFile(f, nt).Success?
    ensures FastaTaxon(f.stem).Some? && StringTerms(TermsFor(nt, FastaTaxon(f.stem).value)).Some?
    ensures var taxon := FastaTaxon(f.stem).value;
      var terms := StringTerms(TermsFor(nt, taxon)).value;
      var o := FilterFile(f, nt).value;
      && o.name == taxon + ".filtered.nt.fasta"
      && (forall k :: k in o.ids <==> k in f.ids && Selects(terms, k))
      && (forall i, j :: 0 <= i < j < |o.ids| ==> o.ids[i] != o.ids[j])
  {
    var terms := StringTerms(TermsFor(nt, FastaTaxon(f.stem).value)).value;
    KeepKeysMembers(terms, f.ids);
    KeepKeysDistinct(terms, f.ids);
  }

  /** Filtering distinct keys keeps them distinct. */
  lemma {:induction false} KeepKeysDistinct(terms: seq<string>, keys: seq<string>)
    requires forall i, j :: 0 <= i < j < |keys| ==> keys[i] != keys[j]
    ensures var kept := KeepKeys(terms, keys);
      forall i, j :: 0 <= i < j < |kept| ==> kept[i] != kept[j]
  {
    if keys != [] {
      var n := |keys| - 1;
      KeepKeysDistinct(terms, keys[..n]);
      KeepKeysMembers(terms, keys[..n]);
      assert keys[n] !in keys[..n];
    }
  }

  // ---------------------------------------------------------------- the loop

  /** `searchfasta`: each FASTA file in turn is filtered and written. The files written
      before an exception stay written, so the result is the outputs so far and the
      exception, if any. */
  method SearchFasta(files: seq<FastaFile>, nt: Dict<seq<Option<string>>>) returns (written: seq<Output>, failure: Option<Error>)
    ensures |written| <= |files|
    ensures forall k :: 0 <= k < |written| ==> FilterFile(files[k], nt) == Success(written[k])
    ensures failure.None? <==> |written| == |files|
    ensures failure.Some? ==> FilterFile(files[|written|], nt) == Failure(failure.value)
  {
    written := [];
    for i := 0 to |files|
      invariant |written| == i
      invariant forall k :: 0 <= k < i ==> FilterFile(files[k], nt) == Success(written[k])
    {
      var fasta := files[i];
      var taxa := FastaTaxon(fasta.stem);
      if taxa.None? {
        return written, Some(MalformedFastaName(fasta.stem));
      }
      var outfile := OutputName(taxa.value);
      var searchterms := StringTerms(TermsFor(nt, taxa.value));
      if searchterms.None? {
        return written, Some(NoneSearchTerm(taxa.value));
      }
      var dup := FirstDuplicate(fasta.ids);
      if dup.Some? {
        return written, Some(DuplicateRecordId(fasta.ids[dup.value]));
      }
      var keepKeys := KeepKeys(searchterms.value, fasta.ids);
      written := written + [Output(outfile, keepKeys)];
    }
    return written, None;
  }
}
