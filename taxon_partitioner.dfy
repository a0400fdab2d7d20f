/** The taxon partitioner (`bytaxa_aa`): for each taxon, the aa ids of the selected
    OG members that carry that taxon's token. */
module TaxonPartitioner {
  import opened Wrappers
  import opened Text
  import opened Dicts

  /** `re.search(taxon + ".+", s)` can start at `i`: the taxon, read as a literal string,
      occurs there and at least one more character of the same line follows it. */
  predicate TaxonAt(taxon: string, s: string, i: nat) {
    i + |taxon| < |s| && taxon <= s[i..] && s[i + |taxon|] != '\n'
  }

  /** The end of the line that position `i` lies on: where a greedy `.+` stops. */
  function LineEnd(s: string, i: nat): (e: nat)
    requires i <= |s|
    ensures i <= e <= |s|
    ensures forall k :: i <= k < e ==> s[k] != '\n'
    ensures e < |s| ==> s[e] == '\n'
    decreases |s| - i
  {
    if i == |s| || s[i] == '\n' then i else LineEnd(s, i + 1)
  }

  /** Where `pattern.search(s)` starts: the leftmost position that admits a match. */
  function TaxonStart(taxon: string, s: string): (r: Option<nat>)
    ensures r.Some? ==> r.value <= |s| && TaxonAt(taxon, s, r.value)
    ensures r.Some? ==> forall j: nat :: j < r.value ==> !TaxonAt(taxon, s, j)
    ensures r.None? ==> forall j: nat :: j <= |s| ==> !TaxonAt(taxon, s, j)
  {
    var at := (i: nat) => TaxonAt(taxon, s, i);
    assert forall j: nat :: at(j) == TaxonAt(taxon, s, j);
    FirstWhere(0, |s| + 1, at)
  }

  /** `pattern.search(s).group(0)`: from the leftmost place where the taxon starts a match
      to the end of that line. */
  function TaxonMatch(taxon: string, s: string): Option<string> {
    match TaxonStart(taxon, s)
    case None => None
    case Some(i) => Some(s[i..LineEnd(s, i + |taxon|)])
  }

  /** A taxon match exists exactly when the taxon occurs with a same-line character after
      it; it is then the leftmost such occurrence together with the rest of its line. */
  lemma TaxonMatchSpec(taxon: string, s: string)
    ensures TaxonMatch(taxon, s).None? <==> forall i: nat :: i <= |s| ==> !TaxonAt(taxon, s, i)
    ensures TaxonMatch(taxon, s).Some? ==> exists i: nat ::
      && TaxonAt(taxon, s, i)
      && (forall j: nat :: j < i ==> !TaxonAt(taxon, s, j))
      && TaxonMatch(taxon, s).value == s[i..LineEnd(s, i + |taxon|)]
    ensures TaxonMatch(taxon, s).Some? ==>
      var m := TaxonMatch(taxon, s).value;
      taxon <= m && |m| > |taxon| && '\n' !in m[|taxon|..]
  {
    match TaxonStart(taxon, s)
    case None =>
    case Some(i) =>
      TaxonMatchAt(taxon, s, i);
      assert TaxonAt(taxon, s, i) && (forall j: nat :: j < i ==> !TaxonAt(taxon, s, j));
  }

  /** The match found from the leftmost start `i`. */
  lemma TaxonMatchAt(taxon: string, s: string, i: nat)
    requires TaxonStart(taxon, s) == Some(i)
    ensures i + |taxon| < |s|
    ensures TaxonMatch(taxon, s) == Some(s[i..LineEnd(s, i + |taxon|)])
    ensures var m := s[i..LineEnd(s, i + |taxon|)];
      taxon <= m && |m| > |taxon| && '\n' !in m[|taxon|..]
  {
    var e := LineEnd(s, i + |taxon|);
    var m := s[i..e];
    assert m[..|taxon|] == s[i..][..|taxon|];
    forall k | |taxon| <= k < |m| ensures m[k] != '\n' {
      assert m[k] == s[i + k];
    }
    assert forall k :: 0 <= k < |m[|taxon|..]| ==> m[|taxon|..][k] == m[|taxon| + k];
  }

  /** `id.search(m)` started at `p` can place its `_` at `q`: the `.+` covers `m[p..q]`,
      which holds no newline, and two digits follow the `_`. */
  predicate AnchorFor(m: string, p: nat, q: nat) {
    && p < q && q + 2 < |m|
    && (forall k :: p <= k < q ==> m[k] != '\n')
    && m[q] == '_' && IsDigit(m[q + 1]) && IsDigit(m[q + 2])
  }

  /** Some `_` position works for a search started at `p`. */
  predicate StartsId(m: string, p: nat) {
    exists q: nat :: p < q < |m| && AnchorFor(m, p, q)
  }

  /** Where `id.search(m)` starts: the leftmost position that admits a match. */
  function IdStart(m: string): (r: Option<nat>)
    ensures r.Some? ==> r.value < |m| && StartsId(m, r.value)
    ensures r.Some? ==> forall j: nat :: j < r.value ==> !StartsId(m, j)
    ensures r.None? ==> forall j: nat :: j < |m| ==> !StartsId(m, j)
  {
    var starts := (p: nat) => StartsId(m, p);
    assert forall j: nat :: starts(j) == StartsId(m, j);
    FirstWhere(0, |m|, starts)
  }

  /** Where the greedy `.+` of a search started at `p` leaves the `_`: the last position that works. */
  function IdAnchor(m: string, p: nat): (r: Option<nat>)
    requires p < |m|
    ensures r.Some? ==> p < r.value < |m| && AnchorFor(m, p, r.value)
    ensures r.Some? ==> forall j: nat :: r.value < j < |m| ==> !AnchorFor(m, p, j)
    ensures r.None? ==> forall j: nat :: p < j < |m| ==> !AnchorFor(m, p, j)
  {
    var anchor := (q: nat) => AnchorFor(m, p, q);
    assert forall j: nat :: anchor(j) == AnchorFor(m, p, j);
    LastWhere(p + 1, |m|, anchor)
  }

  /** `id.search(m).group(1)` for `id = .+_(\d{2,})`: the leftmost start that admits a match,
      the last `_` the greedy `.+` can reach from it, and all the digits after that `_`. */
  function AaId(m: string): Option<string> {
    match IdStart(m)
    case None => None
    case Some(p) =>
      match IdAnchor(m, p)
      case None => None
      case Some(q) => Some(m[q + 1..RunEnd(m, q + 1, IsDigit)])
  }

  /** `_` at `k` of a one-line string, after at least one character and before two digits. */
  predicate IdAnchorAt(m: string, k: nat) {
    1 <= k && k + 2 < |m| && m[k] == '_' && IsDigit(m[k + 1]) && IsDigit(m[k + 2])
  }

  /** On a one-line string the search starts at 0 exactly when some anchor exists. */
  lemma IdStartOneLine(m: string)
    requires '\n' !in m
    ensures IdStart(m).Some? <==> exists k: nat :: k < |m| && IdAnchorAt(m, k)
    ensures IdStart(m).Some? ==> IdStart(m).value == 0
  {
    if exists k: nat :: k < |m| && IdAnchorAt(m, k) {
      var k: nat :| k < |m| && IdAnchorAt(m, k);
      assert AnchorFor(m, 0, k);
      assert StartsId(m, 0);
    } else {
      forall p: nat | p < |m| ensures !StartsId(m, p) {
        if StartsId(m, p) {
          var q: nat :| p < q < |m| && AnchorFor(m, p, q);
          assert IdAnchorAt(m, q);
        }
      }
    }
  }

  /** From 0 on a one-line string, the greedy `.+` reaches the last anchor. */
  lemma IdAnchorOneLine(m: string)
    requires '\n' !in m && |m| > 0
    ensures forall q: nat :: AnchorFor(m, 0, q) <==> IdAnchorAt(m, q)
    ensures IdAnchor(m, 0).Some? <==> exists k: nat :: k < |m| && IdAnchorAt(m, k)
  {
    assert forall q: nat :: AnchorFor(m, 0, q) <==> IdAnchorAt(m, q);
    if exists k: nat :: k < |m| && IdAnchorAt(m, k) {
      var k: nat :| k < |m| && IdAnchorAt(m, k);
      assert AnchorFor(m, 0, k);
    }
  }

  /** The digits after an anchor: at least two of them. */
  lemma AnchorDigits(m: string, q: nat)
    requires IdAnchorAt(m, q)
    ensures IsNumber(m[q + 1..RunEnd(m, q + 1, IsDigit)])
    ensures RunEnd(m, q + 1, IsDigit) >= q + 3
  {
    RunEndSpec(m, q + 1, IsDigit);
  }

  /** On a string without newlines (every taxon match past its taxon is one) the aa id is
      the digit run after the last `_` that has a character before it and two digits after
      it; with no such `_` there is none. An id has at least two digits. */
  lemma AaIdSpec(m: string)
    requires '\n' !in m
    ensures AaId(m).None? <==> forall k: nat :: k < |m| ==> !IdAnchorAt(m, k)
    ensures AaId(m).Some? ==> exists k: nat ::
      && IdAnchorAt(m, k)
      && (forall j: nat :: k < j < |m| ==> !IdAnchorAt(m, j))
      && AaId(m).value == m[k + 1..RunEnd(m, k + 1, IsDigit)]
    ensures AaId(m).Some? ==> |AaId(m).value| >= 2 && AllDigits(AaId(m).value)
  {
    IdStartOneLine(m);
    if IdStart(m).Some? {
      IdAnchorOneLine(m);
      var q := IdAnchor(m, 0).value;
      AnchorDigits(m, q);
      assert AaId(m) == Some(m[q + 1..RunEnd(m, q + 1, IsDigit)]);
    }
  }

  /** The aa id one member yields for a taxon, if it passes both searches. */
  function MemberAaId(taxon: string, s: string): Option<string> {
    match TaxonMatch(taxon, s)
    case None => None
    case Some(m) => AaId(m)
  }

  /** `matchlist`: the taxon matches of a row's members, in row order. */
  function Matches(taxon: string, row: seq<string>): seq<string> {
    if row == [] then []
    else
      (match TaxonMatch(taxon, row[0]) case None => [] case Some(m) => [m]) + Matches(taxon, row[1..])
  }

  /** `match_aa`: the aa ids found in a list of matches, in order. */
  function Ids(ms: seq<string>): seq<string> {
    if ms == [] then []
    else
      (match AaId(ms[0]) case None => [] case Some(d) => [d]) + Ids(ms[1..])
  }

  /** What one row adds to a taxon's bucket. */
  function RowIds(taxon: string, row: seq<string>): seq<string> {
    Ids(Matches(taxon, row))
  }

  /** The ids of one member, as a list of zero or one elements. */
  function MemberIds(taxon: string, s: string): seq<string> {
    match MemberAaId(taxon, s) case None => [] case Some(d) => [d]
  }

  /** A row contributes its members' ids one member at a time, in row order; a member
      that fails either search contributes nothing. */
  lemma RowIdsCons(taxon: string, row: seq<string>)
    requires row != []
    ensures RowIds(taxon, row) == MemberIds(taxon, row[0]) + RowIds(taxon, row[1..])
  {
    var rest := Matches(taxon, row[1..]);
    match TaxonMatch(taxon, row[0])
    case None =>
      assert Matches(taxon, row) == rest;
    case Some(m) =>
      assert Matches(taxon, row) == [m] + rest;
      assert ([m] + rest)[0] == m && ([m] + rest)[1..] == rest;
  }

  /** `bytaxa_aa[taxon]` after one pass over the OG rows: the ids of each row, in row order. */
  function Bucket(taxon: string, rows: seq<seq<string>>): seq<string> {
    if rows == [] then [] else Bucket(taxon, rows[..|rows| - 1]) + RowIds(taxon, rows[|rows| - 1])
  }

  /** Taking one more row appends that row's ids. */
  lemma BucketSnoc(taxon: string, rows: seq<seq<string>>, j: nat)
    requires j < |rows|
    ensures Bucket(taxon, rows[..j + 1]) == Bucket(taxon, rows[..j]) + RowIds(taxon, rows[j])
  {
    assert rows[..j + 1][..j] == rows[..j];
  }

  /** How many times `t` is listed. */
  function Count(taxa: seq<string>, t: string): nat {
    if taxa == [] then 0 else Count(taxa[..|taxa| - 1], t) + (if taxa[|taxa| - 1] == t then 1 else 0)
  }

  /** The number of member ids across all rows. */
  function TotalMembers(rows: seq<seq<string>>): nat {
    if rows == [] then 0 else TotalMembers(rows[..|rows| - 1]) + |rows[|rows| - 1]|
  }

  /** Any aa id has at least two digits. */
  lemma AaIdNumber(m: string)
    ensures AaId(m).Some? ==> |AaId(m).value| >= 2 && IsNumber(AaId(m).value)
  {
    if AaId(m).Some? {
      var q := IdAnchor(m, IdStart(m).value).value;
      assert IdAnchorAt(m, q);
      AnchorDigits(m, q);
    }
  }

  /** A row yields at most one id per member, and its ids are exactly those of its members. */
  lemma {:induction false} RowIdsSpec(taxon: string, row: seq<string>)
    ensures |RowIds(taxon, row)| <= |row|
    ensures forall d :: d in RowIds(taxon, row) <==> exists s :: s in row && MemberAaId(taxon, s) == Some(d)
  {
    if row == [] {
      assert Matches(taxon, row) == [];
    } else {
      RowIdsCons(taxon, row);
      RowIdsSpec(taxon, row[1..]);
      assert row == [row[0]] + row[1..];
      forall d ensures d in RowIds(taxon, row) <==> exists s :: s in row && MemberAaId(taxon, s) == Some(d) {
        if exists s :: s in row && MemberAaId(taxon, s) == Some(d) {
          var s :| s in row && MemberAaId(taxon, s) == Some(d);
          if s != row[0] { assert s in row[1..]; }
        }
      }
    }
  }

  /** The bucket for a taxon after one pass holds at most one id per OG member. */
  lemma {:induction false} BucketBound(taxon: string, rows: seq<seq<string>>)
    ensures |Bucket(taxon, rows)| <= TotalMembers(rows)
  {
    if rows != [] {
      BucketBound(taxon, rows[..|rows| - 1]);
      RowIdsSpec(taxon, rows[|rows| - 1]);
    }
  }

  /** An OG member that matches the taxon and yields `d`. */
  ghost predicate YieldedBy(taxon: string, rows: seq<seq<string>>, d: string) {
    exists i, s :: 0 <= i < |rows| && s in rows[i] && MemberAaId(taxon, s) == Some(d)
  }

  /** A member of the last row yields `d`. */
  ghost predicate YieldedByRow(taxon: string, row: seq<string>, d: string) {
    exists s :: s in row && MemberAaId(taxon, s) == Some(d)
  }

  /** Some member of the rows yields `d` exactly when one of the earlier rows or the last does. */
  lemma YieldedSnoc(taxon: string, rows: seq<seq<string>>, d: string)
    requires rows != []
    ensures YieldedBy(taxon, rows, d) <==>
      YieldedBy(taxon, rows[..|rows| - 1], d) || YieldedByRow(taxon, rows[|rows| - 1], d)
  {
    if YieldedBy(taxon, rows, d) {
      YieldedSplit(taxon, rows, d);
    }
    if YieldedBy(taxon, rows[..|rows| - 1], d) {
      YieldedEarlier(taxon, rows, d);
    }
  }

  /** A member that yields `d` lies in an earlier row or in the last. */
  lemma YieldedSplit(taxon: string, rows: seq<seq<string>>, d: string)
    requires rows != [] && YieldedBy(taxon, rows, d)
    ensures YieldedBy(taxon, rows[..|rows| - 1], d) || YieldedByRow(taxon, rows[|rows| - 1], d)
  {
    var i, s :| 0 <= i < |rows| && s in rows[i] && MemberAaId(taxon, s) == Some(d);
    YieldedSplitAt(taxon, rows, d, i, s);
  }

  /** The member `s` of row `i` lies in an earlier row or in the last. */
  lemma YieldedSplitAt(taxon: string, rows: seq<seq<string>>, d: string, i: nat, s: string)
    requires i < |rows| && s in rows[i] && MemberAaId(taxon, s) == Some(d)
    ensures YieldedBy(taxon, rows[..|rows| - 1], d) || YieldedByRow(taxon, rows[|rows| - 1], d)
  {
    var n := |rows| - 1;
    if i < n {
      assert rows[..n][i] == rows[i];
    }
  }

  /** A member of an earlier row is a member of the rows. */
  lemma YieldedEarlier(taxon: string, rows: seq<seq<string>>, d: string)
    requires rows != [] && YieldedBy(taxon, rows[..|rows| - 1], d)
    ensures YieldedBy(taxon, rows, d)
  {
    var n := |rows| - 1;
    var i, s :| 0 <= i < n && s in rows[..n][i] && MemberAaId(taxon, s) == Some(d);
    assert s in rows[i];
  }

  /** The ids in a taxon's bucket after one pass are exactly the aa ids of the OG members
      that match the taxon. */
  lemma {:induction false} BucketMembers(taxon: string, rows: seq<seq<string>>)
    ensures forall d :: d in Bucket(taxon, rows) <==> YieldedBy(taxon, rows, d)
  {
    if rows != [] {
      var n := |rows| - 1;
      BucketMembers(taxon, rows[..n]);
      RowIdsSpec(taxon, rows[n]);
      forall d ensures d in Bucket(taxon, rows) <==> YieldedBy(taxon, rows, d) {
        YieldedSnoc(taxon, rows, d);
        assert d in RowIds(taxon, rows[n]) <==> YieldedByRow(taxon, rows[n], d);
      }
    }
  }

  /** Every id in a bucket is a string of at least two digits. */
  lemma BucketNumbers(taxon: string, rows: seq<seq<string>>)
    ensures forall d :: d in Bucket(taxon, rows) ==> |d| >= 2 && IsNumber(d)
  {
    BucketMembers(taxon, rows);
    forall d | d in Bucket(taxon, rows) ensures |d| >= 2 && IsNumber(d) {
      var i, s :| 0 <= i < |rows| && s in rows[i] && MemberAaId(taxon, s) == Some(d);
      AaIdNumber(TaxonMatch(taxon, s).value);
    }
  }

  /** One pass over two blocks of rows is the pass over the first followed by the pass over
      the second: the bucket keeps row order. */
  lemma {:induction false} BucketConcat(taxon: string, a: seq<seq<string>>, b: seq<seq<string>>)
    ensures Bucket(taxon, a + b) == Bucket(taxon, a) + Bucket(taxon, b)
  {
    if b == [] {
      assert a + b == a;
    } else {
      var n := |b| - 1;
      assert (a + b)[..|a + b| - 1] == a + b[..n];
      BucketConcat(taxon, a, b[..n]);
      AppendAssoc(Bucket(taxon, a), Bucket(taxon, b[..n]), RowIds(taxon, b[n]));
    }
  }

  /** The bucket a dict holds for `t`, empty when `t` has none yet (`defaultdict(list)`). */
  function BucketOf(buckets: Dict<seq<string>>, t: string): seq<string> {
    if t in buckets.entries then buckets.entries[t] else []
  }

  /** The buckets after the outer loop of `bytaxa_aa` has handled the given taxa in turn:
      each pass extends the taxon's bucket with one pass over the rows. */
  function Partition(taxa: seq<string>, rows: seq<seq<string>>): (buckets: Dict<seq<string>>)
    ensures buckets.Valid()
  {
    if taxa == [] then Empty()
    else
      var before := Partition(taxa[..|taxa| - 1], rows);
      var taxon := taxa[|taxa| - 1];
      before.Set(taxon, BucketOf(before, taxon) + Bucket(taxon, rows))
  }

  /** One more row, appended to a bucket that already holds the earlier rows' ids. */
  lemma ExtendStep(bucket: seq<string>, taxon: string, rows: seq<seq<string>>, j: nat, extended: seq<string>)
    requires j < |rows| && extended == bucket + Bucket(taxon, rows[..j])
    ensures extended + RowIds(taxon, rows[j]) == bucket + Bucket(taxon, rows[..j + 1])
  {
    BucketSnoc(taxon, rows, j);
    var sofar, more := Bucket(taxon, rows[..j]), RowIds(taxon, rows[j]);
    AppendAssoc(bucket, sofar, more);
  }

  /** The inner loop of `bytaxa_aa`: `extend` the taxon's bucket with each row's ids in turn. */
  method ExtendPass(bucket: seq<string>, taxon: string, rows: seq<seq<string>>) returns (extended: seq<string>)
    ensures extended == bucket + Bucket(taxon, rows)
  {
    extended := bucket;
    assert rows[..0] == [];
    for j := 0 to |rows|
      invariant extended == bucket + Bucket(taxon, rows[..j])
    {
      var matchAa := RowIds(taxon, rows[j]);
      ExtendStep(bucket, taxon, rows, j, extended);
      extended := extended + matchAa;
    }
    assert rows[..|rows|] == rows;
  }

  /** `bytaxa_aa`. */
  method ByTaxaAa(taxa: seq<string>, ogmember: Dict<seq<string>>) returns (buckets: Dict<seq<string>>)
    requires ogmember.Valid()
    ensures buckets == Partition(taxa, ogmember.Values())
  {
    buckets := Empty();
    var rows := ogmember.Values();
    for i := 0 to |taxa|
      invariant buckets == Partition(taxa[..i], rows)
    {
      var taxon := taxa[i];
      assert taxa[..i + 1][..i] == taxa[..i];
      // defaultdict(list): the first access finds an empty bucket; `extend` then grows
      // that one list in place
      var bucket := ExtendPass(BucketOf(buckets, taxon), taxon, rows);
      buckets := buckets.Set(taxon, bucket);
    }
    assert taxa[..|taxa|] == taxa;
  }

  /** The keys of the partition are the listed taxa, in the order of first listing, and
      each bucket holds one pass over the rows per listing of its taxon. */
  lemma {:induction false} PartitionSpec(taxa: seq<string>, rows: seq<seq<string>>)
    ensures Partition(taxa, rows).order == Dedup(taxa)
    ensures forall t :: BucketOf(Partition(taxa, rows), t) == Repeat(Bucket(t, rows), Count(taxa, t))
  {
    if taxa != [] {
      var n := |taxa| - 1;
      PartitionSpec(taxa[..n], rows);
      var before := Partition(taxa[..n], rows);
      forall t ensures BucketOf(Partition(taxa, rows), t) == Repeat(Bucket(t, rows), Count(taxa, t)) {
        if t != taxa[n] {
          assert Count(taxa, t) == Count(taxa[..n], t) + 0;
        }
      }
    }
  }
}
