/** The records shared by the components: a browser file, an uploaded image
    with its preview, and the inline-data part sent to the image model. */
module Types {

  /** The part of a browser `File` the core looks at: its name and its
      declared media type (`File.type`). */
  datatype FileInfo = FileInfo(name: string, mimeType: string)

  /** An uploaded image together with the data URL used to preview it. */
  datatype FileDetails = FileDetails(file: FileInfo, preview: string)

  /** Base64 payload plus media type, as exchanged with the model. */
  datatype InlineData = InlineData(data: string, mimeType: string)

  datatype GenerativePart = GenerativePart(inlineData: InlineData)
}
