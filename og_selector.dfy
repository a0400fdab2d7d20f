/** The OG selector: the list of requested orthogroup names and the subset of the
    orthogroup membership table they select. */
module OgSelector {
  import opened Wrappers
  import opened Text
  import opened Dicts

  /** `ognames`: one name per line of the OG list, in input order, each the line
      without its trailing whitespace; blank lines and repeats are kept. */
  function OgNames(lines: seq<string>): (names: seq<string>)
    ensures |names| == |lines|
    ensures forall i :: 0 <= i < |lines| ==>
      && names[i] <= lines[i]
      && AllSpace(lines[i][|names[i]|..])
      && (names[i] == [] || !IsSpace(names[i][|names[i]| - 1]))
  {
    seq(|lines|, i requires 0 <= i < |lines| => RStrip(lines[i]))
  }

  /** No table line is whitespace only: on such a line `split()` is empty and taking its first token fails. */
  predicate NoBlankLine(table: seq<string>) {
    forall i :: 0 <= i < |table| ==> !AllSpace(table[i])
  }

  /** One table line: the OG it describes (its first token with every `:` removed)
      and the member ids it lists (the tokens after the first). */
  datatype Row = Row(og: string, members: seq<string>)

  function ParseRow(line: string): (row: Row)
    requires !AllSpace(line)
  {
    var tokens := Tokens(line);
    Row(RemoveColons(tokens[0]), tokens[1..])
  }

  function ParseTable(table: seq<string>): (rows: seq<Row>)
    requires NoBlankLine(table)
    ensures |rows| == |table|
  {
    seq(|table|, i requires 0 <= i < |table| => ParseRow(table[i]))
  }

  /** `orthodict`, built from the rows in order. */
  function RowMap(rows: seq<Row>): map<string, seq<string>>
  {
    if rows == [] then map[]
    else
      var last := rows[|rows| - 1];
      RowMap(rows[..|rows| - 1])[last.og := last.members]
  }

  /** Some row describes `og`. */
  predicate HasRow(rows: seq<Row>, og: string) {
    exists k :: 0 <= k < |rows| && rows[k].og == og
  }

  /** Row `k` is the last row that describes `og`. */
  predicate LastRowFor(rows: seq<Row>, og: string, k: int) {
    && 0 <= k < |rows|
    && rows[k].og == og
    && forall j :: k < j < |rows| ==> rows[j].og != og
  }

  /** `orthodict` knows exactly the OGs some row describes. */
  lemma {:induction false} RowMapKeys(rows: seq<Row>, og: string)
    ensures og in RowMap(rows) <==> HasRow(rows, og)
  {
    if rows != [] {
      var n := |rows| - 1;
      var p := rows[..n];
      RowMapKeys(p, og);
      if HasRow(rows, og) && rows[n].og != og {
        var k :| 0 <= k < |rows| && rows[k].og == og;
        assert p[k] == rows[k];
      }
      if HasRow(p, og) {
        var k :| 0 <= k < |p| && p[k].og == og;
        assert rows[k] == p[k];
      }
    }
  }

  /** For an OG that several rows describe, `orthodict` holds the members of the last one. */
  lemma {:induction false} RowMapLast(rows: seq<Row>, og: string, k: int)
    requires LastRowFor(rows, og, k)
    ensures og in RowMap(rows) && RowMap(rows)[og] == rows[k].members
  {
    var n := |rows| - 1;
    if k < n {
      var p := rows[..n];
      assert p[k] == rows[k];
      assert LastRowFor(p, og, k) by {
        forall j | k < j < |p| ensures p[j].og != og { assert p[j] == rows[j]; }
      }
      RowMapLast(p, og, k);
    }
  }

  lemma RowMapKeysAll(rows: seq<Row>)
    ensures forall og :: og in RowMap(rows) <==> HasRow(rows, og)
  {
    forall og ensures og in RowMap(rows) <==> HasRow(rows, og) {
      RowMapKeys(rows, og);
    }
  }

  /** `orthosub`: the requested OGs, in the order of their first request, each with its `orthodict` entry. */
  function Subset(oglist: seq<string>, orthodict: map<string, seq<string>>): (d: Dict<seq<string>>)
    requires forall i :: 0 <= i < |oglist| ==> oglist[i] in orthodict
    ensures d.Valid() && d.order == Dedup(oglist)
    ensures forall og :: og in d.entries ==> og in orthodict && d.entries[og] == orthodict[og]
  {
    if oglist == [] then Empty()
    else
      var og := oglist[|oglist| - 1];
      Subset(oglist[..|oglist| - 1], orthodict).Set(og, orthodict[og])
  }

  /** `ogmembers`: the requested OGs mapped to their member ids. A whitespace-only
      table line fails first; then the first requested OG that no line describes. */
  function OgMembers(oglist: seq<string>, table: seq<string>): (r: Result<Dict<seq<string>>>)
    ensures r.Failure? && r.error.BlankTableLine? <==> !NoBlankLine(table)
    ensures r.Failure? && r.error.BlankTableLine? ==>
      var i := r.error.index;
      i < |table| && AllSpace(table[i]) && forall j :: 0 <= j < i ==> !AllSpace(table[j])
    ensures r.Failure? && !r.error.BlankTableLine? ==>
      && NoBlankLine(table)
      && r.error.UnknownOg?
      && exists i :: 0 <= i < |oglist| && oglist[i] == r.error.og && !HasRow(ParseTable(table), oglist[i])
                     && forall j :: 0 <= j < i ==> HasRow(ParseTable(table), oglist[j])
    ensures r.Success? ==> NoBlankLine(table) && forall og :: og in oglist ==> HasRow(ParseTable(table), og)
    ensures r.Success? ==> r.value.Valid() && r.value.order == Dedup(oglist)
    ensures r.Success? ==> forall og, k :: og in r.value.entries && LastRowFor(ParseTable(table), og, k) ==>
      r.value.entries[og] == ParseTable(table)[k].members
  {
    var blank := (i: nat) => i < |table| && AllSpace(table[i]);
    match FirstWhere(0, |table|, blank)
    case Some(i) =>
      assert forall j: nat :: j < |table| ==> (blank(j) <==> AllSpace(table[j]));
      Failure(BlankTableLine(i))
    case None =>
      assert forall j: nat :: j < |table| ==> (blank(j) <==> AllSpace(table[j]));
      var rows := ParseTable(table);
      var orthodict := RowMap(rows);
      RowMapKeysAll(rows);
      var unknown := (i: nat) => i < |oglist| && oglist[i] !in orthodict;
      match FirstWhere(0, |oglist|, unknown)
      case Some(i) =>
        assert forall j: nat :: j < |oglist| ==> (unknown(j) <==> oglist[j] !in orthodict);
        Failure(UnknownOg(oglist[i]))
      case None =>
        assert forall j: nat :: j < |oglist| ==> (unknown(j) <==> oglist[j] !in orthodict);
        var d := Subset(oglist, orthodict);
        assert forall og, k :: og in d.entries && LastRowFor(rows, og, k) ==> d.entries[og] == rows[k].members by {
          forall og, k | og in d.entries && LastRowFor(rows, og, k) ensures d.entries[og] == rows[k].members {
            RowMapLast(rows, og, k);
          }
        }
        Success(d)
  }
}
