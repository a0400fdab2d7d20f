/** Option and Result, and the failures the pipeline can raise. */
module Wrappers {

  datatype Option<+T> = None | Some(value: T)

  datatype Result<+T> = Success(value: T) | Failure(error: Error)

  /** Each kind names an exception the script would raise and end with. */
  datatype Error =
    | BlankTableLine(index: nat)          // `line.split()[0]` on a whitespace-only table line: IndexError
    | UnknownOg(og: string)               // `orthodict[OG]`: KeyError
    | MalformedGffName(stem: string)      // taxon pattern finds nothing in a GFF file name
    | MissingTranscriptId(line: string)   // gene line without `transcriptId=<digits>`
    | MissingProteinId(line: string)      // gene line without `proteinId=<digits>`
    | NoGffForTaxon(taxon: string)        // `aa2nt_dict.get(taxon)` is None for a taxon with aa ids
    | MalformedFastaName(stem: string)    // taxon pattern finds nothing in a FASTA file name
    | NoneSearchTerm(taxon: string)       // a missing nt id reaches `join`: TypeError
    | DuplicateRecordId(id: string)       // the FASTA holds the same record id twice
}
