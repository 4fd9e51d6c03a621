/** The cells and rows of the case export, and the records rebuilt from them. */
module Cells {

  /** A cell that may be blank: `None` stands for the missing value (NaN). */
  datatype Option<+T> = None | Some(value: T)

  datatype Result<+T, +E> = Ok(value: T) | Err(error: E)

  /** A non-blank Case Number cell: either a value the integer cast accepts,
      or one it rejects (free text such as "TBD"). */
  datatype CaseCell = Id(number: int) | Unparsable(text: string)

  /** One physical row of the sheet, with the four columns the pipeline reads. */
  datatype Row = Row(
    caseNumber: Option<CaseCell>,
    subject: Option<string>,
    status: Option<string>,
    description: Option<string>)

  /** A kept, cleaned row whose Case Number has been cast to an integer. */
  datatype Fragment = Fragment(caseNumber: int, subject: Option<string>, status: Option<string>, text: string)

  /** One reconstructed case: a row of the table the pipeline returns. */
  datatype CaseRecord = CaseRecord(caseNumber: int, subject: Option<string>, description: string, status: Option<string>)

  /** The load fails when a Case Number cannot be cast to an integer. */
  datatype LoadError = CaseNumberNotInteger(value: string)
}
