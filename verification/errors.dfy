/** What can go wrong while one source file is converted. `process_file`
    raises and `run` catches every exception alike; the model keeps the
    kinds apart so that the properties can talk about them. */
module Errors {

  datatype Error =
    | UnsupportedFormat(extension: string)  // the ValueError raised by the dispatch
    | MoveFailed                            // `shutil.move` into the staging folder raised
    | ExtractionFailed                      // the container library could not read the file
    | WriteFailed                           // writing the output archive raised

  datatype Result<T> = Ok(value: T) | Err(error: Error)
}
