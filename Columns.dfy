/** The column names the pages share: those of the uploaded target sheet,
    of the registered results, and the display key derived from them. */
module Columns {
  /** Contract number: the id that links a result row to its target row. */
  const CONTRACT: string := "계약번호"
  /** Cancellation reason; a result with one present counts as registered. */
  const REASON: string := "해지사유"
  /** The managing-branch column of the uploaded sheets. */
  const OFFICE: string := "관리지사"
  /** The derived display-key column, and also the word removed from the branch name. */
  const KEY: string := "지사"
  /** The person in charge of a target. */
  const OWNER: string := "담당자"
  /** The business name, shown in the target picker. */
  const SHOP: string := "상호"
  /** When a result was registered. */
  const PROCESSED: string := "처리일시"
}
