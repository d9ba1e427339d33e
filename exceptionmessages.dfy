/** The messages of the malformed-data errors (src/util/exceptionMessages.js)
    that the header validator raises. */
module ExceptionMessages {
  const MissingHeaders: string :=
    "Document is missing one or more required headers or they are misspelled. "
    + "Check that your document contains headers for Technology, Ring, Theme, Description, Status, Tags"

  const MissingContent: string := "Document is missing content."
}
