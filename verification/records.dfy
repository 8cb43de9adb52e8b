/** The parsed form of one input line. */
module Records {

  datatype Option<+T> = None | Some(value: T)

  /** The four capture groups of the line pattern: id, time, ip and candidate. */
  datatype Record = Record(id: string, time: string, ip: string, candidate: string)

  /** The candidate field of every record, in record order. */
  function Candidates(rs: seq<Record>): seq<string> {
    seq(|rs|, i requires 0 <= i < |rs| => rs[i].candidate)
  }
}
