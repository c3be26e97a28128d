/** The exceptions raised by the PNG decoding path and by the worker-process runner. */
module Errors {

  /** Why build_pdf_object refuses an image (Prawn::Errors::UnsupportedImageType). */
  datatype Unsupported =
    | CompressionMethod
    | FilterMethod
    | InterlaceMethod
    | NumberOfColors

  datatype Error =
    /** A read of the chunk stream hit its end: Ruby raises NoMethodError or TypeError on the nil it gets. */
    | MalformedImage
    /** Zlib::Inflate.inflate rejected the concatenated IDAT bytes. */
    | InflateFailed
    /** Arithmetic or a comparison on a header field that is nil (NoMethodError / TypeError). */
    | NilField
    /** `@transparency[:palette]` is nil when a palette alpha channel is generated (NoMethodError). */
    | NoPaletteTable
    /** `raise 'nope'`: the pixel data is file-backed, not in memory. */
    | NotInMemory
    | UnsupportedImageType(reason: Unsupported)
    /** `Marshal.load(nil)` for an argv with an odd number of entries (TypeError). */
    | MissingArgumentValue
    /** Marshal.load rejected an argument or a worker's output (TypeError / ArgumentError). */
    | UnreadableValue
    /** The worker process exited with a non-zero status; carries its standard error. */
    | TaskFailed(stderr: string)
}
