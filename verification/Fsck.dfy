/** What the phases of fsck share: the limits and how they are met, and the answer of a pass over a block. */
module Fsck {
  const MAXBAD: nat := 10
  const DUPTBLSIZE: nat := 100

  datatype Action = KeepOn | Skip | Stop
}
