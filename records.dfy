/** The record shapes the dashboard works on. */
module Records {

  /**
   * One raw scan record: the outcome of one control check on one host.
   * `extra` holds the remaining columns of the row, passed through verbatim.
   */
  datatype Row = Row(hostname: string, os: string, result: string, extra: seq<string>)

  /** One parsed CSV file. */
  type Table = seq<Row>

  /** A host is compliant when every one of its checks passed. */
  datatype Status = Comply | NotComply {
    /** The text shown in the status column and on its filter checkbox. */
    function Label(): (s: string)
      ensures s == "comply" || s == "not_comply"
      ensures s == "comply" <==> this == Comply
    {
      match this
      case Comply => "comply"
      case NotComply => "not_comply"
    }
  }

  /** The status column and the checkboxes tell the two statuses apart. */
  lemma LabelsDiffer(a: Status, b: Status)
    ensures a.Label() == b.Label() <==> a == b
  {
  }

  /** One row of the per-(Hostname, OS) summary table. */
  datatype SummaryRow = SummaryRow(
    hostname: string,
    os: string,
    passCount: nat,
    totalControls: nat,
    status: Status,
    complianceRatio: string)
}
