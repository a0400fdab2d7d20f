# aa2nt: orthogroup amino-acid ids to nucleotide FASTA records

`aa2nt.py` joins identifiers across four kinds of input, in six stages:

1. `ognames` reads a list of orthogroup (OG) names.
2. `ogmembers` selects the rows of an OG membership table for those names.
3. `bytaxa_aa` buckets the members' numeric amino-acid (aa) ids by taxon.
4. `aa_to_nt` builds, from GFF3 `gene` lines, a per-taxon map from protein id to transcript id.
5. `bytaxa_nt` looks each bucketed aa id up in that map. The result is a nucleotide (nt) id, or `None` where the map has no entry.
6. `searchfasta` keeps, from each taxon's transcript FASTA file, the records whose id carries one of those nt ids as a `|`-bounded field.

This project models those six stages and their composition in `main`. Each stage gets its
own module:

- `og_selector.dfy` models `ognames` and `ogmembers`.
- `taxon_partitioner.dfy` models `bytaxa_aa`.
- `gff_indexer.dfy` models `aa_to_nt`.
- `resolver.dfy` models `bytaxa_nt`.
- `fasta_filter.dfy` models `searchfasta`.
- `pipeline.dfy` models `main`.

Shared pieces live in three more modules:

- `text.dfy` holds the character classes, `rstrip`, `split`, `replace` and the leftmost/greedy search choices.
- `dicts.dfy` holds an insertion-ordered dict.
- `wrappers.dfy` holds `Option`, `Result` and the script's failure kinds.

The model follows the code's form. `ognames` and `ogmembers` are comprehensions, so they
become functions. The loops of `bytaxa_aa`, `aa_to_nt`, `bytaxa_nt` and `searchfasta`
become methods with loops. Each such method is proved equal to a specification function,
and that function's properties are proved as lemmas.

Every regular expression is written out as an explicit string predicate:

- A `search` starts at the leftmost position that admits a match.
- A greedy `(.+)` closes at the last position that still admits the rest of the pattern.
- A `\d+` or `\s+` takes its whole run.

Several lemmas tie the greedy reading to the literal one. For example, `GeneLineMeaning`
shows that the greedy reading of `scaffold_\d+\s+prediction\s+gene` accepts exactly the
lines that can be split as the pattern says.

Every exception the script can raise on its data is modelled as a `Failure`. The failure
kinds are listed in `wrappers.dfy`. The model checks them in the order Python evaluates
them:

- In `ogmembers`, a whitespace-only table line comes before a missing OG.
- On a gene line, the missing `transcriptId` comes before the missing `proteinId`, because the right-hand side of the assignment is evaluated first.
- `bytaxa_nt` fails only for a taxon that has aa ids but no GFF entry.
- In `searchfasta`, each file fails on a bad name, then on a `None` term, then on a duplicate record id.

FASTA files before the failing one are already written. `SearchFasta` and `Run` therefore
return the outputs written so far together with the failure.

The model follows the code as written, including:

- A gene line without `proteinId=` or `transcriptId=` ends the run (aa2nt.py:143).
- A `None` among a taxon's nt ids ends the run in `join` (aa2nt.py:165).
- The taxon pattern of `bytaxa_aa` is applied with `search`, so it may match anywhere in a member id (aa2nt.py:101-103).
- A listed taxon whose bucket is empty gets the nt list `[]` from the comprehension of `bytaxa_nt` (aa2nt.py:119). A FASTA taxon that is not a key of `nucsearch` gets `[]` as the `defaultdict(list)` default (aa2nt.py:116, aa2nt.py:163). In both cases the pattern is `\|\|`, which keeps exactly the records whose id holds an empty field `||` (aa2nt.py:163-166).

## Model

| member | source | states |
|---|---|---|
| Text.RStrip | aa2nt.py:82 | `rstrip` gives a prefix of the line. What it removes is all whitespace, and the result does not end in whitespace. |
| OgSelector.OgNames | aa2nt.py:82 | There is one name per list line, in order, with blanks and repeats kept. Each name is its line with the trailing whitespace removed. |
| Text.Tokens | aa2nt.py:89 | `split()` gives non-empty, whitespace-free tokens. The list is empty exactly when the line is all whitespace, and a non-empty line without whitespace is its own single token. |
| Text.WordBeforeSpace | aa2nt.py:89 | A token ends at the first whitespace, whatever follows it. |
| Text.TokensAtSpace | aa2nt.py:89 | `split()` cuts at every whitespace character: the tokens of a line are the tokens before a whitespace character followed by the tokens after it. |
| Text.RemoveColons | aa2nt.py:89 | `replace(':', '')` leaves no `:` and never lengthens the string. A string without `:` is unchanged, and `:` alone becomes empty. |
| Text.RemoveColonsConcat | aa2nt.py:89 | Removing colons distributes over concatenation. |
| OgSelector.RowMapKeys | aa2nt.py:89 | `orthodict` has an OG exactly when some table row describes it. |
| OgSelector.RowMapLast | aa2nt.py:89 | For an OG that several rows describe, `orthodict` holds the members of the last such row. |
| OgSelector.Subset | aa2nt.py:90 | `orthosub` has the requested OGs as keys, in first-request order, each once, each with its `orthodict` value. |
| OgSelector.OgMembers | aa2nt.py:89-90 | A whitespace-only table line fails first, and the failure names the first such line. Otherwise the first requested OG that no row describes fails. On success every requested OG is described, the key order is the deduplicated request order, and each value is the members of the OG's last row. |
| TaxonPartitioner.LineEnd | aa2nt.py:101 | Where the greedy `.+` stops: the next newline or the end of the string. |
| TaxonPartitioner.TaxonStart | aa2nt.py:101-103 | The search starts at the leftmost position where the taxon occurs with a same-line character after it, or there is no match. |
| TaxonPartitioner.TaxonMatchSpec | aa2nt.py:101-103 | A member matches exactly when the taxon occurs in it with a same-line character after it. The match is the leftmost such occurrence plus the rest of its line. It starts with the taxon, is longer than the taxon, and has no newline after the taxon. |
| TaxonPartitioner.TaxonMatchAt | aa2nt.py:101-103 | The match found from the leftmost start is the taxon plus at least one more character and the rest of that line. |
| TaxonPartitioner.IdStart | aa2nt.py:98 | The leftmost start from which `.+_(\d{2,})` can match. |
| TaxonPartitioner.IdAnchor | aa2nt.py:98 | From that start, the greedy `.+` leaves the `_` at the last position that still has two digits after it. |
| TaxonPartitioner.AaIdSpec | aa2nt.py:98-104 | On a one-line match, the aa id is the whole digit run after the last `_` that has a character before it and two digits after it. With no such `_` there is no id. An id is at least two digits. |
| TaxonPartitioner.AaIdNumber | aa2nt.py:98-104 | An extracted aa id is a digit string of length at least 2. |
| TaxonPartitioner.RowIdsSpec | aa2nt.py:103-104 | One OG row yields at most one id per member. Its ids are exactly those its members yield; members failing either search are dropped. |
| TaxonPartitioner.BucketMembers | aa2nt.py:102-105 | After one pass over the OGs, a taxon's bucket holds exactly the ids that members of the selected OGs yield for it. |
| TaxonPartitioner.BucketNumbers | aa2nt.py:103-105 | Every id in a bucket is a digit string of length at least 2. |
| TaxonPartitioner.BucketBound | aa2nt.py:103-105 | One pass puts at most as many ids in a bucket as there are member ids in the selected OGs. |
| TaxonPartitioner.BucketConcat | aa2nt.py:102-105 | The bucket keeps OG order and then member order: the pass over two blocks of OGs is the pass over the first followed by the pass over the second. |
| TaxonPartitioner.ExtendPass | aa2nt.py:102-105 | The inner loop extends the bucket with one pass over all the OG rows. |
| TaxonPartitioner.ByTaxaAa | aa2nt.py:99-106 | The loop over the taxa builds the partition of the rows of `ogmember`, in its value order. |
| TaxonPartitioner.PartitionSpec | aa2nt.py:99-106 | The partition's keys are the listed taxa in first-listing order. A taxon listed k times holds k passes over the OG rows. |
| GffIndexer.GffCutAt | aa2nt.py:133 | `^(.+)_\w+_` closes its group at the last position that still admits `_`, word characters and `_`. |
| GffIndexer.GffTaxon | aa2nt.py:140 | The GFF taxon is the longest non-empty prefix of the stem that is followed by `_`, one or more word characters and `_`. A stem without one has no taxon. |
| GffIndexer.SpaceThenMeaning | aa2nt.py:136 | Taking a whole whitespace run and then a word agrees with the literal reading of `\s+w`. |
| GffIndexer.SpaceThenThenMeaning | aa2nt.py:136 | The greedy reading of `\s+w1\s+w2` agrees with its literal reading. |
| GffIndexer.GeneLineMeaning | aa2nt.py:136 | `getgeneonly.match` accepts exactly the lines that start `scaffold_`, then one or more digits, whitespace, `prediction`, whitespace, `gene`. |
| GffIndexer.CaptureStart | aa2nt.py:134-135 | The id search starts at the first occurrence of the key that a digit follows. |
| GffIndexer.Capture | aa2nt.py:134-135 | The search succeeds exactly when the key is followed by a digit somewhere in the line. The captured id is the non-empty digit run right after the leftmost such key, and it is maximal: the line ends or a non-digit follows. |
| GffIndexer.LineWrite | aa2nt.py:141-143 | A non-gene line changes nothing. A gene line either assigns the first `proteinId=` digits to the first `transcriptId=` digits under the file's taxon or fails. It fails on a missing transcript id first, then on a missing protein id. |
| GffIndexer.NoGeneLines | aa2nt.py:141-143 | A file with no gene line contributes no assignment. |
| GffIndexer.LinesFailureAny | aa2nt.py:141-143 | A file's lines fail exactly when one of its gene lines fails. |
| GffIndexer.LinesFailureFirst | aa2nt.py:141-143 | A failure of the lines is the failure of the first line that fails, and all earlier lines succeed. |
| GffIndexer.LinesWritesShape | aa2nt.py:141-143 | Every assignment a file makes is under the file's taxon and is between digit strings. |
| GffIndexer.ApplyTaxa | aa2nt.py:137-143 | A taxon has an inner map exactly when some assignment was made under it. |
| GffIndexer.ApplyProteins | aa2nt.py:137-143 | A protein id is in a taxon's inner map exactly when some assignment was made to it. |
| GffIndexer.ApplyLast | aa2nt.py:143 | Last write wins: the map keeps the transcript id of the last assignment to a protein id. |
| GffIndexer.GffIndexSnoc | aa2nt.py:139-143 | One more GFF file merges its own inner map into its taxon's map, its ids winning, and leaves other taxa alone. Files with the same taxon share one map. |
| GffIndexer.GffIndexNumbers | aa2nt.py:134-143 | The index maps digit strings to digit strings. |
| GffIndexer.AddLines | aa2nt.py:141-143 | The loop over a file's lines applies that file's assignments in order, or returns its first failure. |
| GffIndexer.AaToNt | aa2nt.py:137-149 | The loop over the files returns the index that all the files' assignments build in order, or the first failure. |
| Resolver.Resolution | aa2nt.py:119 | One entry per aa id, in order. Entry i is the nt id of aa id i when the taxon's inner map has it, and `None` otherwise. |
| Resolver.ResolveTaxon | aa2nt.py:119 | A taxon fails exactly when it has aa ids and no inner map (`get(taxon)` is `None`). Otherwise the result is its resolution. |
| Resolver.FirstUnindexed | aa2nt.py:118-119 | The first taxon in `bytaxa_aa` key order that has aa ids and no inner map. |
| Resolver.NtBucketsSpec | aa2nt.py:116-119 | `bytaxa_nt` fails exactly when some taxon has aa ids and no inner map, and then on the first such taxon. Otherwise the key order is kept and each taxon's list has its aa list's length, with each entry the inner-map value or `None`. |
| Resolver.ByTaxaNt | aa2nt.py:116-124 | The loop returns the result that `NtBuckets` specifies. |
| Resolver.ResolutionComplete | aa2nt.py:119 | All of a taxon's aa ids resolve exactly when each is in its inner map. Every resolved id from GFF files is a digit string. |
| FastaFilter.FastaCutAt | aa2nt.py:153 | `^(.+)_.+transcripts` closes its group at the last `_` that has at least one character and then `transcripts` after it, with no newline in between. |
| FastaFilter.FastaTaxon | aa2nt.py:159 | The FASTA taxon is the longest prefix of the stem that is followed by `_`, at least one character and `transcripts`. |
| FastaFilter.TermPatternAlternation | aa2nt.py:164-166 | The pattern text is the alternation, in order, of one alternative per term: the term between two escaped pipes. |
| FastaFilter.TermPatternEmpty | aa2nt.py:164-166 | An empty term list gives the pattern of two escaped pipes, which matches an empty field. |
| FastaFilter.KeepKeysMembers | aa2nt.py:172 | The kept keys are exactly the input keys that the pattern selects, and never more than the input. |
| FastaFilter.KeepKeysConcat | aa2nt.py:172 | Filtering keeps input order: the kept keys of two blocks are those of the first block followed by those of the second. |
| FastaFilter.BoundedIsField | aa2nt.py:166-172 | For a term without a pipe, a key contains the term between two pipes exactly when the term is one of the key's inner pipe-separated fields. |
| FastaFilter.SelectsFields | aa2nt.py:166-172 | For pipe-free terms, a key is kept exactly when one of its inner fields is a term. With no terms, the field must be empty. |
| FastaFilter.SelectsOneOfFour | aa2nt.py:166-172 | A single pipe-free term selects a key of four pipe-separated fields exactly when it equals the second or the third field. |
| FastaFilter.PipeBoundaryMiss | aa2nt.py:164-172 | The term `302` does not select the id field `3020`. |
| FastaFilter.PipeBoundaryHit | aa2nt.py:164-172 | The term `302` selects the id field `302`. |
| FastaFilter.StringTerms | aa2nt.py:163-165 | The terms join exactly when none is `None`, and then they are the nt ids in order. |
| FastaFilter.FirstDuplicate | aa2nt.py:171 | Finds the first record id that repeats an earlier one. There is none exactly when the ids are distinct. |
| FastaFilter.FilterFileSpec | aa2nt.py:159-172 | A file that passes is written under `<taxon>.filtered.nt.fasta`. It holds exactly its selected record ids, each once. |
| FastaFilter.KeepKeysDistinct | aa2nt.py:171-172 | Filtering distinct record ids keeps them distinct. |
| FastaFilter.SearchFasta | aa2nt.py:157-180 | The files are handled in order. Every file before the failing one is written as `FilterFile` gives. The run ends with no failure exactly when all are written, and otherwise with the failing file's failure. |
| Pipeline.Run | aa2nt.py:64-75 | A failure before the FASTA stage writes nothing and is returned. Otherwise the FASTA stage runs on the nt ids the earlier stages produce. |
| Pipeline.NtTermsFromGff | aa2nt.py:67-75 | Each nt id reaching the FASTA stage is what the GFF index maps the aa id at the same position of the taxon's bucket to, and it is a digit string. |
| Pipeline.KeptKeys | aa2nt.py:67-75 | End to end: every search term is a digit string. A written record id is exactly a file id one of whose inner pipe-separated fields is a term, or is empty when the taxon has no terms. |

## Left out

- Command-line parsing (`get_args`, aa2nt.py:16-60) is not modelled. `Run` takes the already-read inputs as parameters.
- File handles, `os.path.basename` and `splitext` (aa2nt.py:140, 159) are not modelled. A GFF file is given as the stem of its name and its lines. A FASTA file is given as its stem and its record ids.
- Biopython's `SeqIO.parse`, `to_dict` and `write` (aa2nt.py:171, 180) are not modelled, nor is opening the output files (aa2nt.py:178). An output is modelled as its name and the ids of the records written to it, in order. The only failure of `to_dict` that is modelled is a repeated record id.
- `process_time` and every `print` are left out, because they are timing and logging.
- `\d` and `\w` are read as their ASCII classes. Python's Unicode digits and letters beyond ASCII are not modelled. Whitespace uses the full `str.isspace` set.
- The taxon at aa2nt.py:101 and the nt ids at aa2nt.py:165 are interpolated into patterns without escaping. The model reads them as literal strings. A taxon holding regex metacharacters would behave differently in the script.
- No general regular-expression engine is modelled. Compiling the term pattern (aa2nt.py:167) is assumed to succeed, which holds for the digit-string terms the index yields.
- An output file that a later FASTA file with the same taxon overwrites is modelled as two outputs with the same name.
