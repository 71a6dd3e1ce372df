/**
  How one invocation of a conversion command ends, and the two messages
  both commands print.
 */
module Runs {
  import opened FileSystem

  /** A tree together with the lines reported while producing it. */
  datatype Outcome = Outcome(tree: Tree, output: seq<string>)

  /** The command returned `code`, leaving `tree` and having reported
      `output`; or an exception escaped it (the partly converted tree it
      leaves behind is not modelled). */
  datatype Run = Exit(code: int, tree: Tree, output: seq<string>) | Crashed

  /** Printed (as an error) when the gate rejects the project. */
  const Rejected := "Must run on new project"
  /** Printed when a conversion finishes. */
  const Succeeded := "Set up successfully."
}
