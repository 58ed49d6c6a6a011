/** Constants and failure kinds shared by the SPT decoder and encoder. */
module SptFormat {

  /** Type tag of a file holding one still image (no offset fields). */
  const SingleType: int := 2
  /** Type tag of a multi-frame file (x and y offset fields present). */
  const MultiType: int := 6

  /** The longest run the encoder writes as one code: seven bits of low part
      plus seven bits of high part. */
  const MaxRun: nat := 16383

  /** What makes `read_spt_file` stop without writing any image. */
  datatype DecodeError =
    | EmptyInput          // a zero-length file: the function returns early
    | IndexOutOfRange     // numpy IndexError: a read past the end of the buffer
    | EmptyLengthField    // ValueError: a chunk length field with no bytes left
    | EmptyColorTable     // ValueError: max() of an empty palette, reached by a pixel

  /** The header or chunk field whose `to_bytes` call overflows. */
  datatype Field = ImageCount | Width | Height | XOffset | YOffset | PaletteLength | ChunkLength

  /** What makes `create_spt_file` raise before writing anything. */
  datatype EncodeError =
    | NoImages            // ValueError: empty image list
    | PaletteTooLarge     // ValueError: palette_size > 256
    | DimensionMismatch   // ValueError: an image of another size than the first
    | Overflow(field: Field)  // OverflowError from int.to_bytes
    | EmptyPalette        // ValueError: min() over an empty palette while quantising
}
