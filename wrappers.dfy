/** Result and Option values, and the error kinds the visualizers raise. */
module Wrappers {

  datatype Option<+T> = None | Some(value: T)

  datatype Result<+T, +E> = Ok(value: T) | Err(error: E)

  /** The errors raised by the beta-diversity visualizers. */
  datatype Error =
    | UnknownMethod(name: string, options: seq<string>)
    | MissingPhylogeny(metric: string)
    | IdMismatch(ids: seq<string>)
    | LengthMismatch(expected: nat, actual: nat)

  /** `sep.join(parts)` */
  function Join(parts: seq<string>, sep: string): string
  {
    if |parts| == 0 then ""
    else if |parts| == 1 then parts[0]
    else parts[0] + sep + Join(parts[1..], sep)
  }

  /** The text of the `ValueError` each error is raised with. */
  function Message(e: Error): string
  {
    match e
    case UnknownMethod(name, options) =>
      "Unknown group significance method " + name + ". The available options are "
      + Join(options, ", ") + "."
    case MissingPhylogeny(metric) =>
      "A phylogenetic metric (" + metric + ") was requested, but a phylogenetic tree "
      + "was not provided. Phylogeny must be provided when using a phylogenetic "
      + "diversity metric."
    case IdMismatch(ids) =>
      "The following ID(s) are not contained in both distance matrices. Use "
      + "`intersect_ids` to discard these mismatches and apply the Mantel test to only "
      + "those IDs that are found in both distance matrices.\n\n" + Join(ids, ", ")
    case LengthMismatch(expected, actual) =>
      "Length of values does not match length of index"
  }
}
