/** The GFF indexer (`aa_to_nt`): for each taxon, protein id to transcript id, taken
    from the `gene` lines of that taxon's GFF3 files. */
module GffIndexer {
  import opened Wrappers
  import opened Text
  import opened Dicts

  /** A GFF3 file as the stem of its name (directory and extension removed) and its lines. */
  datatype GffFile = GffFile(stem: string, lines: seq<string>)

  /** One assignment `aa_to_nt[taxon][protein] = transcript`. */
  datatype Write = Write(taxon: string, protein: string, transcript: string)

  /** `aa_to_nt`: taxon to (protein id to transcript id). */
  type Index = map<string, map<string, string>>

  // ---------------------------------------------------------------- taxon from the file name

  /** `s[i..r]` is one or more word characters and `s[r]` is `_`: what `\w+_` matches from `i`. */
  predicate WordsThenUnderscore(s: string, i: nat) {
    exists r: nat :: i < r < |s| && s[r] == '_' && AllWord(s[i..r])
  }

  /** `^(.+)_\w+_` can close its group at `p`: a non-empty first line part, then `_`, word
      characters and `_`. */
  predicate GffCut(stem: string, p: nat) {
    && 1 <= p < |stem|
    && (forall k :: 0 <= k < p ==> stem[k] != '\n')
    && stem[p] == '_'
    && WordsThenUnderscore(stem, p + 1)
  }

  /** Where the greedy `(.+)` closes: the last position that works. */
  function GffCutAt(stem: string): (r: Option<nat>)
    ensures r.Some? ==> r.value < |stem| && GffCut(stem, r.value)
    ensures r.Some? ==> forall p: nat :: r.value < p < |stem| ==> !GffCut(stem, p)
    ensures r.None? ==> forall p: nat :: p < |stem| ==> !GffCut(stem, p)
  {
    var cut := (p: nat) => GffCut(stem, p);
    assert forall p: nat :: cut(p) == GffCut(stem, p);
    LastWhere(0, |stem|, cut)
  }

  /** `taxon_name.search(stem).group(1)`: the longest non-empty prefix of the stem that is
      followed by `_`, word characters and `_`; a stem with no such prefix has none. */
  function GffTaxon(stem: string): (r: Option<string>)
    ensures r.None? <==> forall p: nat :: p < |stem| ==> !GffCut(stem, p)
    ensures r.Some? ==>
      && |r.value| < |stem| && r.value == stem[..|r.value|] && r.value != []
      && GffCut(stem, |r.value|)
      && forall p: nat :: |r.value| < p < |stem| ==> !GffCut(stem, p)
  {
    match GffCutAt(stem)
    case None => None
    case Some(p) => Some(stem[..p])
  }

  // ---------------------------------------------------------------- gene lines

  /** From `i`, a whitespace run (all of it, as `\s+` takes) and then `w`. */
  predicate SpaceThen(line: string, i: nat, w: string)
    requires i <= |line|
  {
    var k := RunEnd(line, i, IsSpace);
    k > i && w <= line[k..]
  }

  /** From `a`: whitespace, `w1`, whitespace, `w2`, each whitespace run taken whole. */
  predicate SpaceThenThen(line: string, a: nat, w1: string, w2: string)
    requires a <= |line|
  {
    var b := RunEnd(line, a, IsSpace);
    b > a && w1 <= line[b..] && SpaceThen(line, b + |w1|, w2)
  }

  /** `getgeneonly.match(line)` for `scaffold_\d+\s+prediction\s+gene`. Digits, whitespace,
      `p` and `g` are disjoint classes, so every `+` takes its whole run. */
  predicate IsGeneLine(line: string) {
    && "scaffold_" <= line
    && var a := RunEnd(line, 9, IsDigit);
       a > 9 && SpaceThenThen(line, a, "prediction", "gene")
  }

  /** `s[i..k]` is all whitespace. */
  predicate SpaceRun(s: string, i: nat, k: nat)
    requires k <= |s|
  {
    forall x :: i <= x < k ==> IsSpace(s[x])
  }

  /** `s[i..k]` is all digits. */
  predicate DigitRun(s: string, i: nat, k: nat)
    requires k <= |s|
  {
    forall x :: i <= x < k ==> IsDigit(s[x])
  }

  /** Whitespace from `i` up to an occurrence of `w`. */
  ghost predicate SpacedWord(line: string, i: nat, w: string) {
    exists k: nat :: i < k <= |line| && SpaceRun(line, i, k) && w <= line[k..]
  }

  /** Whitespace from `i`, then `w1`, then whitespace and `w2`. */
  ghost predicate SpacedWords(line: string, i: nat, w1: string, w2: string) {
    exists j: nat :: i < j <= |line| && SpaceRun(line, i, j) && w1 <= line[j..] && SpacedWord(line, j + |w1|, w2)
  }

  /** The regular expression read literally: some split of the line into `scaffold_`,
      one or more digits, whitespace, `prediction`, whitespace, `gene` and the rest. */
  ghost predicate GeneShape(line: string) {
    && "scaffold_" <= line
    && exists i: nat :: 9 < i <= |line| && DigitRun(line, 9, i) && SpacedWords(line, i, "prediction", "gene")
  }

  /** A word that can follow a whitespace run: non-empty, not starting with whitespace. */
  predicate Delimits(w: string) { w != [] && !IsSpace(w[0]) }

  /** The whitespace run that ends at a `w` is the one `RunEnd` finds. */
  lemma SpacedWordExact(line: string, i: nat, w: string, k: nat)
    requires i < k <= |line| && SpaceRun(line, i, k) && w <= line[k..] && Delimits(w)
    ensures RunEnd(line, i, IsSpace) == k
  {
    assert line[k] == line[k..][0] == w[0];
    RunEndExact(line, i, k, IsSpace);
  }

  /** `SpaceThen` is the literal reading of `\s+w`. */
  lemma SpaceThenMeaning(line: string, i: nat, w: string)
    requires i <= |line| && Delimits(w)
    ensures SpaceThen(line, i, w) <==> SpacedWord(line, i, w)
  {
    if SpaceThen(line, i, w) {
      var k := RunEnd(line, i, IsSpace);
      RunEndSpec(line, i, IsSpace);
      assert i < k <= |line| && SpaceRun(line, i, k) && w <= line[k..];
    }
    if SpacedWord(line, i, w) {
      var k: nat :| i < k <= |line| && SpaceRun(line, i, k) && w <= line[k..];
      SpacedWordExact(line, i, w, k);
    }
  }

  /** `SpaceThenThen` is the literal reading of `\s+w1\s+w2`. */
  lemma SpaceThenThenMeaning(line: string, a: nat, w1: string, w2: string)
    requires a <= |line| && Delimits(w1) && Delimits(w2)
    ensures SpaceThenThen(line, a, w1, w2) <==> SpacedWords(line, a, w1, w2)
  {
    if SpaceThenThen(line, a, w1, w2) {
      SpaceThenThenSound(line, a, w1, w2);
    }
    if SpacedWords(line, a, w1, w2) {
      SpaceThenThenComplete(line, a, w1, w2);
    }
  }

  /** The greedy runs give a literal split. */
  lemma SpaceThenThenSound(line: string, a: nat, w1: string, w2: string)
    requires a <= |line| && Delimits(w2) && SpaceThenThen(line, a, w1, w2)
    ensures SpacedWords(line, a, w1, w2)
  {
    var b := RunEnd(line, a, IsSpace);
    RunEndSpec(line, a, IsSpace);
    SpaceThenMeaning(line, b + |w1|, w2);
    assert a < b <= |line| && SpaceRun(line, a, b) && w1 <= line[b..] && SpacedWord(line, b + |w1|, w2);
  }

  /** A literal split is the one the greedy runs find. */
  lemma SpaceThenThenComplete(line: string, a: nat, w1: string, w2: string)
    requires a <= |line| && Delimits(w1) && Delimits(w2) && SpacedWords(line, a, w1, w2)
    ensures SpaceThenThen(line, a, w1, w2)
  {
    var j: nat :| a < j <= |line| && SpaceRun(line, a, j) && w1 <= line[j..] && SpacedWord(line, j + |w1|, w2);
    SpaceThenThenAt(line, a, j, w1, w2);
  }

  /** The split at `j` is the one the greedy runs find. */
  lemma SpaceThenThenAt(line: string, a: nat, j: nat, w1: string, w2: string)
    requires a < j <= |line| && SpaceRun(line, a, j) && w1 <= line[j..] && Delimits(w1) && Delimits(w2)
    requires SpacedWord(line, j + |w1|, w2)
    ensures SpaceThenThen(line, a, w1, w2)
  {
    SpaceThenMeaning(line, j + |w1|, w2);
    SpacedWordExact(line, a, w1, j);
  }

  /** Digits up to `i`, then the whitespace that `SpacedWords` starts with: the digit run
      ends at `i`. */
  lemma DigitsEndAt(line: string, i: nat, w1: string, w2: string)
    requires 9 < i <= |line| && DigitRun(line, 9, i) && SpacedWords(line, i, w1, w2)
    ensures RunEnd(line, 9, IsDigit) == i
  {
    var j: nat :| i < j <= |line| && SpaceRun(line, i, j) && w1 <= line[j..] && SpacedWord(line, j + |w1|, w2);
    assert IsSpace(line[i]);
    RunEndExact(line, 9, i, IsDigit);
  }

  /** The greedy reading of the pattern agrees with its literal reading. */
  lemma GeneLineMeaning(line: string)
    ensures IsGeneLine(line) <==> GeneShape(line)
  {
    assert Delimits("prediction") && Delimits("gene");
    if IsGeneLine(line) {
      var a := RunEnd(line, 9, IsDigit);
      RunEndSpec(line, 9, IsDigit);
      SpaceThenThenMeaning(line, a, "prediction", "gene");
    }
    if GeneShape(line) {
      var i: nat :| 9 < i <= |line| && DigitRun(line, 9, i) && SpacedWords(line, i, "prediction", "gene");
      DigitsEndAt(line, i, "prediction", "gene");
      SpaceThenThenMeaning(line, i, "prediction", "gene");
    }
  }

  // ---------------------------------------------------------------- ids in a gene line

  /** `re.search(key + "(\d+)", line)` can start at `i`. */
  predicate CaptureAt(key: string, line: string, i: nat) {
    i + |key| < |line| && key <= line[i..] && IsDigit(line[i + |key|])
  }

  /** The leftmost position where the search can start. */
  function CaptureStart(key: string, line: string): (r: Option<nat>)
    ensures r.Some? ==> r.value < |line| && CaptureAt(key, line, r.value)
    ensures r.Some? ==> forall j: nat :: j < r.value ==> !CaptureAt(key, line, j)
    ensures r.None? ==> forall j: nat :: j < |line| ==> !CaptureAt(key, line, j)
  {
    var at := (i: nat) => CaptureAt(key, line, i);
    assert forall i: nat :: at(i) == CaptureAt(key, line, i);
    FirstWhere(0, |line|, at)
  }

  /** `re.search(key + "(\d+)", line).group(1)`: all the digits after the first `key` that
      a digit follows. */
  function Capture(key: string, line: string): (r: Option<string>)
    ensures r.Some? <==> CaptureStart(key, line).Some?
    ensures r.Some? ==> IsNumber(r.value)
    ensures r.Some? ==>
      var i := CaptureStart(key, line).value;
      && key + r.value <= line[i..]
      && (i + |key| + |r.value| == |line| || !IsDigit(line[i + |key| + |r.value|]))
  {
    match CaptureStart(key, line)
    case None => None
    case Some(i) =>
      var e := RunEnd(line, i + |key|, IsDigit);
      RunEndSpec(line, i + |key|, IsDigit);
      var d := line[i + |key|..e];
      assert key + d <= line[i..] by {
        assert line[i..][..|key|] == key;
        forall k | 0 <= k < |key + d| ensures (key + d)[k] == line[i..][k] {
          if k >= |key| {
            assert (key + d)[k] == d[k - |key|] == line[i + k];
          }
        }
      }
      Some(d)
  }

  /** The effect of one line of a GFF file whose taxon is `taxon`: nothing for a line that is
      not a gene line; for a gene line the assignment it makes, or the failure of one of its
      two searches. The transcript id is searched first, as the right-hand side of the
      assignment is evaluated before its subscript. */
  function LineWrite(taxon: string, line: string): (r: Result<Option<Write>>)
    ensures !IsGeneLine(line) ==> r == Success(None)
    ensures IsGeneLine(line) ==> r != Success(None)
    ensures IsGeneLine(line) && Capture("transcriptId=", line).None? ==> r == Failure(MissingTranscriptId(line))
    ensures IsGeneLine(line) && Capture("transcriptId=", line).Some? && Capture("proteinId=", line).None? ==>
      r == Failure(MissingProteinId(line))
    ensures r.Success? && r.value.Some? ==>
      var w := r.value.value;
      && w.taxon == taxon
      && Capture("proteinId=", line) == Some(w.protein)
      && Capture("transcriptId=", line) == Some(w.transcript)
      && IsNumber(w.protein) && IsNumber(w.transcript)
  {
    if !IsGeneLine(line) then Success(None)
    else
      match Capture("transcriptId=", line)
      case None => Failure(MissingTranscriptId(line))
      case Some(nt) =>
        match Capture("proteinId=", line)
        case None => Failure(MissingProteinId(line))
        case Some(aa) => Success(Some(Write(taxon, aa, nt)))
  }

  /** The assignments the lines make in order, or the first failure. */
  function LinesWrites(taxon: string, lines: seq<string>): Result<seq<Write>> {
    if lines == [] then Success([])
    else
      match LinesWrites(taxon, lines[..|lines| - 1])
      case Failure(e) => Failure(e)
      case Success(ws) =>
        match LineWrite(taxon, lines[|lines| - 1])
        case Failure(e) => Failure(e)
        case Success(None) => Success(ws)
        case Success(Some(w)) => Success(ws + [w])
  }

  /** The assignments one file makes, or the failure that ends the script on it. */
  function FileWrites(f: GffFile): Result<seq<Write>> {
    match GffTaxon(f.stem)
    case None => Failure(MalformedGffName(f.stem))
    case Some(taxon) => LinesWrites(taxon, f.lines)
  }

  /** The assignments all files make, file after file, or the first failure. */
  function Writes(files: seq<GffFile>): Result<seq<Write>> {
    if files == [] then Success([])
    else
      match Writes(files[..|files| - 1])
      case Failure(e) => Failure(e)
      case Success(ws) =>
        match FileWrites(files[|files| - 1])
        case Failure(e) => Failure(e)
        case Success(fw) => Success(ws + fw)
  }

  /** The inner map of a taxon, empty when the taxon has none (`defaultdict(dict)`). */
  function Inner(index: Index, t: string): map<string, string> {
    if t in index then index[t] else map[]
  }

  /** One assignment `index[w.taxon][w.protein] = w.transcript`. */
  function Put(index: Index, w: Write): Index {
    index[w.taxon := Inner(index, w.taxon)[w.protein := w.transcript]]
  }

  /** The index the assignments build in order, starting from the empty `defaultdict(dict)`. */
  function Apply(ws: seq<Write>): Index {
    if ws == [] then map[] else Put(Apply(ws[..|ws| - 1]), ws[|ws| - 1])
  }

  /** What `aa_to_nt` returns, or the failure that ends it. */
  function GffIndex(files: seq<GffFile>): Result<Index> {
    match Writes(files)
    case Failure(e) => Failure(e)
    case Success(ws) => Success(Apply(ws))
  }

  // ---------------------------------------------------------------- the loop

  /** A failure on a prefix of the lines is the failure of all of them. */
  lemma {:induction false} LinesFailurePrefix(taxon: string, lines: seq<string>, n: nat)
    requires n <= |lines| && LinesWrites(taxon, lines[..n]).Failure?
    ensures LinesWrites(taxon, lines) == LinesWrites(taxon, lines[..n])
    decreases |lines| - n
  {
    if n < |lines| {
      assert lines[..n + 1][..n] == lines[..n];
      LinesFailurePrefix(taxon, lines, n + 1);
    } else {
      assert lines[..n] == lines;
    }
  }

  /** A failure on a prefix of the files is the failure of all of them. */
  lemma {:induction false} FilesFailurePrefix(files: seq<GffFile>, n: nat)
    requires n <= |files| && Writes(files[..n]).Failure?
    ensures Writes(files) == Writes(files[..n])
    decreases |files| - n
  {
    if n < |files| {
      assert files[..n + 1][..n] == files[..n];
      FilesFailurePrefix(files, n + 1);
    } else {
      assert files[..n] == files;
    }
  }

  /** `Apply` adds one assignment at a time. */
  lemma ApplySnoc(ws: seq<Write>, w: Write)
    ensures Apply(ws + [w]) == Put(Apply(ws), w)
  {
    assert (ws + [w])[..|ws|] == ws;
  }

  /** The inner loop of `aa_to_nt` over the lines of one file whose taxon is `taxon`, applied
      to the index that the assignments `done` built. */
  method AddLines(index: Index, taxon: string, lines: seq<string>, ghost done: seq<Write>) returns (r: Result<Index>)
    requires index == Apply(done)
    ensures LinesWrites(taxon, lines).Failure? ==> r == Failure(LinesWrites(taxon, lines).error)
    ensures LinesWrites(taxon, lines).Success? ==> r == Success(Apply(done + LinesWrites(taxon, lines).value))
  {
    var acc := index;
    ghost var cur: seq<Write> := [];
    assert lines[..0] == [];
    assert done + cur == done;
    for j := 0 to |lines|
      invariant LinesWrites(taxon, lines[..j]) == Success(cur)
      invariant acc == Apply(done + cur)
    {
      var line := lines[j];
      assert lines[..j + 1][..j] == lines[..j];
      if IsGeneLine(line) {
        var nt := Capture("transcriptId=", line);
        if nt.None? {
          LinesFailurePrefix(taxon, lines, j + 1);
          return Failure(MissingTranscriptId(line));
        }
        var aa := Capture("proteinId=", line);
        if aa.None? {
          LinesFailurePrefix(taxon, lines, j + 1);
          return Failure(MissingProteinId(line));
        }
        var inner := if taxon in acc then acc[taxon] else map[];
        acc := acc[taxon := inner[aa.value := nt.value]];
        ghost var w := Write(taxon, aa.value, nt.value);
        ApplySnoc(done + cur, w);
        AppendAssoc(done, cur, [w]);
        cur := cur + [w];
      }
    }
    assert lines[..|lines|] == lines;
    return Success(acc);
  }

  /** `aa_to_nt`: each file's taxon from its name, then every gene line of the file assigned
      into that taxon's inner map. */
  method AaToNt(files: seq<GffFile>) returns (r: Result<Index>)
    ensures r == GffIndex(files)
  {
    var index: Index := map[];
    ghost var done: seq<Write> := [];
    for i := 0 to |files|
      invariant Writes(files[..i]) == Success(done)
      invariant index == Apply(done)
    {
      var f := files[i];
      assert files[..i + 1][..i] == files[..i];
      var name := GffTaxon(f.stem);
      if name.None? {
        FilesFailurePrefix(files, i + 1);
        return Failure(MalformedGffName(f.stem));
      }
      var res := AddLines(index, name.value, f.lines, done);
      if res.Failure? {
        FilesFailurePrefix(files, i + 1);
        return Failure(res.error);
      }
      index := res.value;
      done := done + LinesWrites(name.value, f.lines).value;
    }
    assert files[..|files|] == files;
    return Success(index);
  }

  // ---------------------------------------------------------------- what the index holds

  /** Whether an assignment is to `aa_to_nt[t][a]`. */
  predicate Targets(w: Write, t: string, a: string) { w.taxon == t && w.protein == a }

  /** A taxon has an inner map exactly when some assignment was made for it. */
  lemma {:induction false} ApplyTaxa(ws: seq<Write>, t: string)
    ensures t in Apply(ws) <==> exists k :: 0 <= k < |ws| && ws[k].taxon == t
  {
    if ws != [] {
      var n := |ws| - 1;
      var prev := ws[..n];
      ApplyTaxa(prev, t);
      if exists k :: 0 <= k < |ws| && ws[k].taxon == t {
        var k :| 0 <= k < |ws| && ws[k].taxon == t;
        if k < n { assert prev[k].taxon == t; }
      }
      if exists k :: 0 <= k < n && prev[k].taxon == t {
        var k :| 0 <= k < n && prev[k].taxon == t;
        assert ws[k].taxon == t;
      }
    }
  }

  /** A protein id is in a taxon's inner map exactly when some assignment was made to it. */
  lemma {:induction false} ApplyProteins(ws: seq<Write>, t: string, a: string)
    ensures a in Inner(Apply(ws), t) <==> exists k :: 0 <= k < |ws| && Targets(ws[k], t, a)
  {
    if ws != [] {
      var n := |ws| - 1;
      var prev := ws[..n];
      ApplyProteins(prev, t, a);
      if exists k :: 0 <= k < |ws| && Targets(ws[k], t, a) {
        var k :| 0 <= k < |ws| && Targets(ws[k], t, a);
        if k < n { assert Targets(prev[k], t, a); }
      }
      if exists k :: 0 <= k < n && Targets(prev[k], t, a) {
        var k :| 0 <= k < n && Targets(prev[k], t, a);
        assert Targets(ws[k], t, a);
      }
    }
  }

  /** The last assignment to `aa_to_nt[t][a]` is the one the index keeps. */
  lemma {:induction false} ApplyLast(ws: seq<Write>, t: string, a: string, k: nat)
    requires k < |ws| && Targets(ws[k], t, a)
    requires forall j :: k < j < |ws| ==> !Targets(ws[j], t, a)
    ensures a in Inner(Apply(ws), t) && Inner(Apply(ws), t)[a] == ws[k].transcript
  {
    var n := |ws| - 1;
    if k < n {
      var prev := ws[..n];
      assert prev[k] == ws[k];
      ApplyLast(prev, t, a, k);
    }
  }

  /** Every assignment a file's lines make is for the file's taxon, and is of digit strings. */
  lemma {:induction false} LinesWritesShape(taxon: string, lines: seq<string>)
    requires LinesWrites(taxon, lines).Success?
    ensures forall w :: w in LinesWrites(taxon, lines).value ==>
      w.taxon == taxon && IsNumber(w.protein) && IsNumber(w.transcript)
  {
    if lines != [] {
      LinesWritesShape(taxon, lines[..|lines| - 1]);
    }
  }

  /** A file none of whose lines is a gene line contributes nothing. */
  lemma {:induction false} NoGeneLines(taxon: string, lines: seq<string>)
    requires forall i :: 0 <= i < |lines| ==> !IsGeneLine(lines[i])
    ensures LinesWrites(taxon, lines) == Success([])
  {
    if lines != [] {
      NoGeneLines(taxon, lines[..|lines| - 1]);
    }
  }

  /** One failing line makes the lines fail. */
  lemma {:induction false} LineFailureSpreads(taxon: string, lines: seq<string>, i: nat)
    requires i < |lines| && LineWrite(taxon, lines[i]).Failure?
    ensures LinesWrites(taxon, lines).Failure?
  {
    var n := |lines| - 1;
    if i < n {
      var prev := lines[..n];
      assert prev[i] == lines[i];
      LineFailureSpreads(taxon, prev, i);
    }
  }

  /** A failure of the lines is the error of the first line that fails. */
  lemma {:induction false} LinesFailureFirst(taxon: string, lines: seq<string>)
    requires LinesWrites(taxon, lines).Failure?
    ensures exists i ::
      && 0 <= i < |lines|
      && LineWrite(taxon, lines[i]) == Failure(LinesWrites(taxon, lines).error)
      && forall j :: 0 <= j < i ==> LineWrite(taxon, lines[j]).Success?
  {
    var n := |lines| - 1;
    var prev := lines[..n];
    assert forall i :: 0 <= i < n ==> lines[i] == prev[i];
    if LinesWrites(taxon, prev).Failure? {
      LinesFailureFirst(taxon, prev);
      var i :| 0 <= i < n && LineWrite(taxon, prev[i]) == Failure(LinesWrites(taxon, prev).error)
        && forall j :: 0 <= j < i ==> LineWrite(taxon, prev[j]).Success?;
      assert LineWrite(taxon, lines[i]) == Failure(LinesWrites(taxon, lines).error);
    } else {
      forall j | 0 <= j < n ensures LineWrite(taxon, lines[j]).Success? {
        if LineWrite(taxon, lines[j]).Failure? {
          LineFailureSpreads(taxon, prev, j);
        }
      }
      assert LineWrite(taxon, lines[n]) == Failure(LinesWrites(taxon, lines).error);
    }
  }

  /** The lines fail exactly when one of them does. */
  lemma LinesFailureAny(taxon: string, lines: seq<string>)
    ensures LinesWrites(taxon, lines).Failure? <==> exists i :: 0 <= i < |lines| && LineWrite(taxon, lines[i]).Failure?
  {
    if LinesWrites(taxon, lines).Failure? {
      LinesFailureFirst(taxon, lines);
    }
    if exists i :: 0 <= i < |lines| && LineWrite(taxon, lines[i]).Failure? {
      var i :| 0 <= i < |lines| && LineWrite(taxon, lines[i]).Failure?;
      LineFailureSpreads(taxon, lines, i);
    }
  }

  /** Updating a union updates its right operand. */
  lemma UnionUpdate(m1: map<string, string>, m2: map<string, string>, a: string, v: string)
    ensures (m1 + m2)[a := v] == m1 + m2[a := v]
  {
  }

  /** The empty map is a right unit of the union. */
  lemma UnionEmpty(m: map<string, string>)
    ensures m + map[] == m
  {
  }

  /** Indexing with more assignments merges each taxon's inner map with the later
      assignments' one, the later values winning. */
  lemma {:induction false} ApplyConcat(ws1: seq<Write>, ws2: seq<Write>, t: string)
    ensures Inner(Apply(ws1 + ws2), t) == Inner(Apply(ws1), t) + Inner(Apply(ws2), t)
  {
    if ws2 == [] {
      assert ws1 + ws2 == ws1;
      UnionEmpty(Inner(Apply(ws1), t));
    } else {
      var n := |ws2| - 1;
      var w := ws2[n];
      assert ws2 == ws2[..n] + [w];
      AppendAssoc(ws1, ws2[..n], [w]);
      ApplySnoc(ws1 + ws2[..n], w);
      ApplySnoc(ws2[..n], w);
      ApplyConcat(ws1, ws2[..n], t);
      if w.taxon == t {
        UnionUpdate(Inner(Apply(ws1), t), Inner(Apply(ws2[..n]), t), w.protein, w.transcript);
      }
    }
  }

  /** The index of all the assignments to one taxon holds nothing for any other taxon. */
  lemma OneTaxon(ws: seq<Write>, taxon: string, t: string)
    requires forall w :: w in ws ==> w.taxon == taxon
    requires t != taxon
    ensures Inner(Apply(ws), t) == map[]
  {
    ApplyTaxa(ws, t);
    forall k | 0 <= k < |ws| ensures ws[k].taxon != t {
      assert ws[k] in ws;
    }
  }

  /** The inner map one GFF file builds on its own. */
  function FileIndex(f: GffFile): map<string, string>
    requires FileWrites(f).Success? && GffTaxon(f.stem).Some?
  {
    Inner(Apply(FileWrites(f).value), GffTaxon(f.stem).value)
  }

  /** One more GFF file merges its own inner map into its taxon's, later ids winning, and
      leaves every other taxon as it was: files that yield the same taxon share one map. */
  lemma GffIndexSnoc(files: seq<GffFile>, f: GffFile)
    requires GffIndex(files + [f]).Success?
    ensures GffIndex(files).Success? && GffTaxon(f.stem).Some? && FileWrites(f).Success?
    ensures forall t ::
              Inner(GffIndex(files + [f]).value, t) ==
              Inner(GffIndex(files).value, t) + (if Some(t) == GffTaxon(f.stem) then FileIndex(f) else map[])
  {
    var all := files + [f];
    assert all[..|all| - 1] == files;
    var ws, fw := Writes(files).value, FileWrites(f).value;
    var taxon := GffTaxon(f.stem).value;
    LinesWritesShape(taxon, f.lines);
    forall t ensures Inner(GffIndex(all).value, t) ==
      Inner(GffIndex(files).value, t) + (if Some(t) == GffTaxon(f.stem) then FileIndex(f) else map[])
    {
      ApplyConcat(ws, fw, t);
      if t != taxon {
        OneTaxon(fw, taxon, t);
        UnionEmpty(Inner(Apply(ws), t));
      }
    }
  }

  /** Every protein id and transcript id the index holds is a digit string. */
  lemma {:induction false} ApplyNumbers(ws: seq<Write>)
    requires forall w :: w in ws ==> IsNumber(w.protein) && IsNumber(w.transcript)
    ensures forall t, a :: t in Apply(ws) && a in Apply(ws)[t] ==> IsNumber(a) && IsNumber(Apply(ws)[t][a])
  {
    if ws != [] {
      ApplyNumbers(ws[..|ws| - 1]);
      assert ws[|ws| - 1] in ws;
    }
  }

  /** Every assignment all the files make is of digit strings. */
  lemma {:induction false} WritesNumbers(files: seq<GffFile>)
    requires Writes(files).Success?
    ensures forall w :: w in Writes(files).value ==> IsNumber(w.protein) && IsNumber(w.transcript)
  {
    if files != [] {
      var f := files[|files| - 1];
      WritesNumbers(files[..|files| - 1]);
      LinesWritesShape(GffTaxon(f.stem).value, f.lines);
    }
  }

  /** The index maps digit strings to digit strings. */
  lemma GffIndexNumbers(files: seq<GffFile>)
    requires GffIndex(files).Success?
    ensures forall t, a :: t in GffIndex(files).value && a in GffIndex(files).value[t] ==>
      IsNumber(a) && IsNumber(GffIndex(files).value[t][a])
  {
    WritesNumbers(files);
    ApplyNumbers(Writes(files).value);
  }
}
