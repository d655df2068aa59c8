/** Which reading of the daemon a definition follows: the code as written,
    or the code with its evident slips corrected (see README, Findings). */
module Variant {
  datatype Build = AsWritten | Corrected
}
