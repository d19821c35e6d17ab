/** The rule `sniff_delimiter_quick` applies after (or instead of) the CSV sniffer's guess. */
module Delimiter {
  import opened Wrappers
  import Text

  /** The delimiters the sniffer is allowed to choose from. */
  const Sniffable: seq<char> := [',', '\t', ';', '|', ' ']

  /** Extensions whose files are read with automatic separator detection when sniffing fails. */
  const AutoDetectExtensions: seq<string> := [".tsv", ".dat"]

  /**
   * `sniffed` is the sniffer's delimiter, or None when it raised; `sample` is the decoded sample
   * it looked at and `ext` the file extension as `os.path.splitext` returns it. The result None
   * means "let the reader detect the separator itself".
   */
  function ChooseDelimiter(sniffed: Option<char>, sample: string, ext: string): (d: Option<char>)
    ensures sniffed.Some? ==> d.Some?
    ensures sniffed.Some? && d != sniffed ==> sniffed.value == ' ' && d.value == '\t'
    ensures sniffed == Some(' ') ==> (d == Some('\t') <==> Text.Count(sample, '\t') > Text.Count(sample, ' '))
    ensures sniffed.None? ==> (d.None? <==> Text.Lower(ext) in AutoDetectExtensions)
    ensures sniffed.None? && d.Some? ==> d.value == ','
  {
    match sniffed
    case Some(c) =>
      if c == ' ' && Text.Count(sample, '\t') > Text.Count(sample, ' ') then Some('\t') else Some(c)
    case None =>
      if Text.Lower(ext) in AutoDetectExtensions then None else Some(',')
  }

  /** Whatever the sniffer picked, the post-rule never leaves the sniffable set. */
  lemma ChosenIsSniffable(sniffed: Option<char>, sample: string, ext: string)
    requires sniffed.Some? ==> sniffed.value in Sniffable
    ensures ChooseDelimiter(sniffed, sample, ext).Some? ==> ChooseDelimiter(sniffed, sample, ext).value in Sniffable
  {
  }

  /** The extension test ignores case: ".TSV" and ".Dat" fall back to automatic detection too. */
  lemma ExtensionCaseInsensitive()
    ensures ChooseDelimiter(None, "", ".TSV") == None
    ensures ChooseDelimiter(None, "", ".Dat") == None
    ensures ChooseDelimiter(None, "", ".csv") == Some(',')
  {
    assert Text.Lower(".TSV") == ".tsv";
    assert Text.Lower(".Dat") == ".dat";
    assert Text.Lower(".csv") == ".csv";
  }
}
