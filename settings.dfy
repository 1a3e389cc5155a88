/**
 * The values the extension reads from its host: the configuration snapshot, the document
 * being formatted, ranges and replacement edits, and the external converter.
 */
module Settings {
  import opened Wrappers

  /**
   * One snapshot of the settings read on a request. The `sassFormat.*` settings keep their
   * names; `formatOnPaste` is the editor's own `editor.formatOnPaste`. `indent` is the text
   * the configured number or string prints as. A boolean setting that is not configured
   * reads as false, as JavaScript's truthiness test treats `undefined`.
   */
  datatype Config = Config(
    sassPath: Option<string>,
    dasherize: bool,
    indent: string,
    oldStyle: bool,
    defaultEncoding: string,
    unixNewlines: bool,
    useSingleQuotes: bool,
    inlineComments: bool,
    numberLeadingZero: bool,
    formatOnPaste: bool)

  /** A document: its whole text and its file-system path. */
  datatype Document = Document(text: string, fsPath: string)

  /** A range of a document, as character offsets into its text. */
  datatype Range = Range(start: nat, end: nat)

  /** A replacement of the text of `range` by `newText`. */
  datatype TextEdit = Replace(range: Range, newText: string)

  /**
   * The external `sass-convert` tool run synchronously through a shell: given the command
   * line and the text piped to its standard input, it prints the converted text, or the
   * call throws and the error's text is what remains.
   */
  type Converter = (string, string) -> Result<string, string>

  /** The range from the start of the first line to the end of the last line. */
  function WholeRange(doc: Document): (r: Range)
    ensures r.start == 0 && r.end == |doc.text|
  {
    Range(0, |doc.text|)
  }

  /** `document.getText(range)`: the text of `range`, the range first clamped to the document. */
  function GetText(doc: Document, r: Range): (t: string)
    ensures r.start <= r.end <= |doc.text| ==> t == doc.text[r.start..r.end]
    ensures |t| <= |doc.text|
  {
    var n := |doc.text|;
    var a := if r.start <= n then r.start else n;
    var b := if r.end <= n then r.end else n;
    if a <= b then doc.text[a..b] else doc.text[b..a]
  }
}
