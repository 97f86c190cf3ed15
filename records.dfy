/** The rows of the bank statement, as the CSV reader hands them over. */
module Records {
  /** A CSV row with at least the three fields the loop reads: the date, the
      description and the amount. */
  type Record = r: seq<string> | |r| >= 3 witness ["", "", ""]
}
