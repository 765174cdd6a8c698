/** The document record that loaders produce and the similarity search returns. */
module Documents {

  /** A document: its text and its metadata (source path, page, start index, ...). */
  datatype Document = Document(pageContent: string, metadata: map<string, string>)
}
