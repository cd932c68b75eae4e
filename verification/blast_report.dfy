/** The report header check: a search report is accepted only when its first line opens
    with the XML declaration. */
module BlastReport {
  import opened Results
  import opened PyStr
  import opened BlastTypes

  const XmlPrefix: string := "<?xml"

  /** The first five characters of the first line are the XML prefix exactly when the
      whole report opens with it: a newline inside the first five characters would cut
      the line short, and the prefix holds no newline. */
  lemma HeaderOfFirstLine(content: string)
    ensures PySlice(ReadLine(content), 0, 5) == XmlPrefix
        <==> |content| >= 5 && content[..5] == XmlPrefix
  {
    var line := ReadLine(content);
    if |line| >= 5 {
      assert line[..5] == content[..5];
    } else if |content| >= 5 {
      assert content[..5][|line| - 1] == line[|line| - 1] == '\n';
    }
  }

  /** Checks the report at `path`, whose text is `content`, or `None` when the file is
      missing or unreadable. Every failure, including the inner "Invalid xml" one, comes
      out as the single "Invalid xml or not found" error. */
  function ValidXml(path: string, content: Option<string>): (r: Outcome<BlastError>)
    ensures r.Pass? <==> content.Some? && |content.value| >= 5 && content.value[..5] == XmlPrefix
    ensures r.Fail? ==> r.error == InvalidXmlOrNotFound(path)
  {
    match content
    case None => Fail(InvalidXmlOrNotFound(path))
    case Some(text) =>
      HeaderOfFirstLine(text);
      if PySlice(ReadLine(text), 0, 5) == XmlPrefix then Pass
      else Fail(InvalidXmlOrNotFound(path))
  }

  /** An empty report, or one whose first line is shorter than the prefix, is rejected. */
  lemma ShortFirstLineRejected(path: string, content: string)
    requires |ReadLine(content)| < 5
    ensures ValidXml(path, Some(content)) == Fail(InvalidXmlOrNotFound(path))
  {
    HeaderOfFirstLine(content);
  }
}
