/** How transactions and pages are named. */
module Ids {
  type TxId = int
  type PageId = nat
}
