/** Failure-carrying values, and the errors the modelled code can raise. */
module Wrappers {

  datatype Option<+T> = None | Some(value: T)

  datatype Result<+T> = Ok(value: T) | Err(error: Error)

  /** The exceptions the gene finder can raise on bad input. */
  datatype Error =
      /** `list.index` finds no entry for a character that is not A, C, G or T in either case (a ValueError). */
    | InvalidNucleotide(base: char)
      /** `max` of an empty list of ORFs (a ValueError). */
    | EmptyOrfList
      /** A codon with no entry in the amino-acid table (a KeyError). */
    | UnknownCodon(codon: string)
}
