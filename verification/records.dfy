/** The two records of the converter: the description of a scanned image and
    the outcome of one conversion job. */
module Records {
  import opened Text

  /** One image found by the scan. The modification time is kept as the
      YYYYMMDD day it falls on, the only form in which it is used. Sizes are
      byte counts. */
  datatype FileInfo = FileInfo(path: string, modDate: string, ext: string, size: nat)

  /** Why a job failed; EncoderFailed carries the encoder's combined output. */
  datatype JobError =
    | UniquePathFailed
    | CreateTempFailed
    | EncoderFailed(output: string)
    | SaveFailed
    | StatFailed

  /** The outcome of one job: err == None means success. dst stays "" until a
      unique destination has been found, convBytes stays 0 unless the final
      stat succeeded. */
  datatype ConvertResult = ConvertResult(
    src: string,
    dst: string,
    origBytes: nat,
    convBytes: nat,
    err: Option<JobError>)
}
