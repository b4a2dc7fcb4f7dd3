/**
 * Frontmatter: an optional JSON block `<%# ... %>` at the top of a page
 * source, which the build reads as the page's own metadata.
 */
module Frontmatter {
  import opened Wrappers
  import opened Json
  import opened Strings

  const Opener := "<%#"
  const Closer := "%>"

  /** What the build keeps of JSON.parse: the parsed value, or `{}` when parsing throws. */
  function ParsedOrEmpty(parsed: Option<Value>): Value {
    match parsed
    case Some(v) => v
    case None => EmptyObject
  }

  /**
   * parseFrontmatter. The JSON parser is a parameter: `parse(s)` is `None`
   * exactly when JSON.parse(s) throws. The result is `{}` unless the trimmed
   * text starts with the opener and contains the closer; then it is the
   * parse of the trimmed text strictly between the opener and the FIRST
   * closer (which never lies inside the opener, so `substring` is never
   * called with its bounds swapped).
   */
  function ParseFrontmatter(text: string, parse: string -> Option<Value>): (r: Value)
    ensures !StartsWith(Trim(text), Opener) ==> r == EmptyObject
    ensures !Occurs(Trim(text), Closer) ==> r == EmptyObject
    ensures forall e :: StartsWith(Trim(text), Opener) && FirstOccurrence(Trim(text), Closer, e) ==>
              3 <= e && r == ParsedOrEmpty(parse(Trim(Trim(text)[3..e])))
  {
    var trimmed := Trim(text);
    if StartsWith(trimmed, Opener) then
      var endIndex := IndexOf(trimmed, Closer);
      if endIndex != -1 then
        CloserIndex(trimmed);
        var jsonStr := Trim(Substring(trimmed, 3, endIndex));
        ParsedOrEmpty(parse(jsonStr))
      else
        EmptyObject
    else
      EmptyObject
  }

  /** The closer cannot start inside the opener: its first occurrence is at index 3 or later. */
  lemma OpenerHidesCloser(s: string)
    requires StartsWith(s, Opener)
    ensures forall k :: 0 <= k < 3 ==> !OccursAt(s, Closer, k)
  {
    assert s[0] == '<' && s[1] == '%' && s[2] == '#' by {
      assert s[..3] == Opener;
    }
  }

  /** After the opener, `indexOf` finds the one first closer, at index 3 or later. */
  lemma CloserIndex(s: string)
    requires StartsWith(s, Opener) && Occurs(s, Closer)
    ensures 3 <= IndexOf(s, Closer)
    ensures forall e :: FirstOccurrence(s, Closer, e) ==> e == IndexOf(s, Closer)
  {
    OpenerHidesCloser(s);
    forall e | FirstOccurrence(s, Closer, e)
      ensures e == IndexOf(s, Closer)
    {
      FirstOccurrenceUnique(s, Closer, e, IndexOf(s, Closer));
    }
  }

  /** Trimming keeps a prefix that neither starts nor ends with whitespace. */
  lemma TrimKeepsPrefix(text: string, block: string)
    requires block != [] && StartsWith(text, block)
    requires !IsSpace(block[0]) && !IsSpace(block[|block| - 1])
    ensures StartsWith(Trim(text), block)
  {
    assert text[..|block|] == block;
    assert text[0] == block[0] && text[|block| - 1] == block[|block| - 1];
    assert SkipSpace(text, 0) == 0;
    var j := SkipSpaceBack(text, |text|);
    assert |block| <= j;
    assert text[0..j][..|block|] == text[..|block|];
  }

  /** In a text that starts with opener, block and closer, the first closer is the one after the block. */
  lemma CloserAfterBlock(t: string, body: string)
    requires !Occurs(body, Closer)
    requires StartsWith(t, Opener + body + Closer)
    ensures StartsWith(t, Opener)
    ensures FirstOccurrence(t, Closer, 3 + |body|)
    ensures t[3..3 + |body|] == body
  {
    var block := Opener + body + Closer;
    var e := 3 + |body|;
    assert t[..|block|] == block;
    assert t[..3] == block[..3];
    assert t[e..e + 2] == block[e..e + 2];
    assert t[3..e] == block[3..e];
    OpenerHidesCloser(t);
    forall k | 3 <= k < e
      ensures !OccursAt(t, Closer, k)
    {
      if k + 2 <= e {
        assert t[k..k + 2] == body[k - 3..k - 1];
        assert !OccursAt(body, Closer, k - 3);
      } else {
        assert t[k + 1] == '%';
      }
    }
  }

  /**
   * A page that begins with `<%#`, then a block without `%>`, then `%>`
   * yields exactly what the parser makes of the trimmed block, whatever
   * follows the block and however many lines the block spans.
   */
  lemma RecoversBlock(body: string, rest: string, parse: string -> Option<Value>)
    requires !Occurs(body, Closer)
    ensures ParseFrontmatter(Opener + body + Closer + rest, parse) == ParsedOrEmpty(parse(Trim(body)))
  {
    var block := Opener + body + Closer;
    var text := block + rest;
    assert text[..|block|] == block;
    assert block[0] == '<' && block[|block| - 1] == '>';
    TrimKeepsPrefix(text, block);
    CloserAfterBlock(Trim(text), body);
  }
}
