/** The two ways a decode of a LabChart file can fail. */
module Results {

  datatype Error =
    | StructError      // a fixed-width region came back shorter than its record (struct.error)
    | DataCheckFailed  // the sample count does not match the header's samplesPerChannel

  datatype Result<T> = Ok(value: T) | Err(error: Error)
}
