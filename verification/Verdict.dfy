/** The four answers of the boot-chain gate. */
module Verdict {
  datatype BootStatus = Pass | Warn | Fail | Inaccessible
}
