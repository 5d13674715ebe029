/** Success/failure values for the operations of the photo clusterer that can raise. */
module Results {

  datatype Result<+T, +E> = Ok(value: T) | Err(error: E)

  /** Why a run of `cluster_photos_by_time_intervals.py` stops before placing every photo. */
  datatype Fault =
    | TooFewSamples(samples: nat, components: nat)  // the mixture fit rejects fewer samples than components, or a single one
    | NoPhotos                                       // no file matches the postfix; the script exits
    | DirectoryFailure                               // a directory exists already, or its parent is missing
}
