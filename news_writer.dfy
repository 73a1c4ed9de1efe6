/** The one piece of the article generator that the publisher depends on: the layout of
    the generated-article text file. */
module NewsWriter {
  import opened Strings

  /** The file body `process_article` writes: the title, a blank line, then the body. */
  function SerializeArticle(title: string, body: string): (text: string)
    ensures |text| == |title| + 2 + |body|
    ensures '\n' !in title ==> Split(text, "\n")[0] == title
  {
    var text := title + "\n" + ("\n" + body);
    assert text == title + "\n\n" + body;
    if '\n' in title then text
    else
      SplitCharAppend(title, '\n', "\n" + body);
      text
  }
}
