/** `remove_xml_from_abstract` in `src/crossref.py`: JATS titles are emptied,
    then the text of every `jats:p` element is collected, in document order,
    separated by single spaces, and the result is stripped. Parsing is an
    oracle `parse` from the abstract string to the document's top-level nodes. */
module CrossrefAbstract {
  import opened Wrappers
  import opened Text
  import opened Tables

  /** A node of the parsed document: character data or an element with children. */
  datatype Node = Text(s: string) | Element(name: string, children: seq<Node>)

  /** `get_text()`: all character data below the node, in document order. */
  function GetText(n: Node): string {
    match n
    case Text(s) => s
    case Element(_, cs) => Concat(seq(|cs|, i requires 0 <= i < |cs| => GetText(cs[i])))
  }

  /** `title.clear()` on every `jats:title`: each loses all its children. */
  function ClearTitles(n: Node): Node {
    match n
    case Text(_) => n
    case Element(name, cs) =>
      if name == "jats:title" then Element(name, [])
      else Element(name, seq(|cs|, i requires 0 <= i < |cs| => ClearTitles(cs[i])))
  }

  function ClearAll(doc: seq<Node>): seq<Node> {
    seq(|doc|, i requires 0 <= i < |doc| => ClearTitles(doc[i]))
  }

  /** `find_all()` below one node: every element, in document (pre-)order. */
  function FindAll(n: Node): seq<Node> {
    match n
    case Text(_) => []
    case Element(_, cs) => [n] + Concat(seq(|cs|, i requires 0 <= i < |cs| => FindAll(cs[i])))
  }

  /** `soup.find_all()` over the whole document. */
  function FindAllIn(doc: seq<Node>): seq<Node> {
    Concat(seq(|doc|, i requires 0 <= i < |doc| => FindAll(doc[i])))
  }

  predicate IsParagraph(n: Node) {
    n.Element? && n.name == "jats:p"
  }

  /** The texts of the `jats:p` elements among `elements`, in order. */
  function ParagraphTexts(elements: seq<Node>): (r: seq<string>)
    ensures |r| <= |elements|
  {
    if |elements| == 0 then []
    else if IsParagraph(elements[0]) then [GetText(elements[0])] + ParagraphTexts(elements[1..])
    else ParagraphTexts(elements[1..])
  }

  /** The texts from the first non-empty one on: while `cleaned_text` is still
      empty no separator is added, so leading empty paragraphs leave no trace. */
  function DropLeadingEmpty(ts: seq<string>): (r: seq<string>)
    ensures |r| <= |ts|
    ensures |r| > 0 ==> r[0] != ""
  {
    if |ts| > 0 && ts[0] == "" then DropLeadingEmpty(ts[1..]) else ts
  }

  // ---------------------------------------------------------------------------
  // The assembly loop

  /** The loop over `soup.find_all()`: a space before every paragraph once
      `cleaned_text` is non-empty, then the paragraph's text. */
  method AssembleParagraphs(elements: seq<Node>) returns (cleaned: string)
    ensures cleaned == Join(DropLeadingEmpty(ParagraphTexts(elements)), " ")
  {
    cleaned := "";
    for i := 0 to |elements|
      invariant cleaned == Join(DropLeadingEmpty(ParagraphTexts(elements[..i])), " ")
    {
      ParagraphTextsAppend(elements[..i], elements[i]);
      assert elements[..i + 1] == elements[..i] + [elements[i]];
      var element := elements[i];
      if element.Element? && element.name == "jats:p" {
        var text := GetText(element);
        DropLeadingEmptyAppend(ParagraphTexts(elements[..i]), text);
        if cleaned != "" {
          cleaned := cleaned + " ";
        }
        cleaned := cleaned + text;
      } else {
        assert ParagraphTexts(elements[..i]) + [] == ParagraphTexts(elements[..i]);
      }
    }
    assert elements[..|elements|] == elements;
  }

  lemma {:induction false} ParagraphTextsAppend(elements: seq<Node>, e: Node)
    ensures ParagraphTexts(elements + [e]) ==
      ParagraphTexts(elements) + (if IsParagraph(e) then [GetText(e)] else [])
  {
    if |elements| == 0 {
      assert [e][1..] == [];
    } else {
      assert (elements + [e])[1..] == elements[1..] + [e];
      ParagraphTextsAppend(elements[1..], e);
    }
  }

  /** One more text `t` extends the joined string as the loop body does. */
  lemma {:induction false} DropLeadingEmptyAppend(ts: seq<string>, t: string)
    ensures var before := Join(DropLeadingEmpty(ts), " ");
      Join(DropLeadingEmpty(ts + [t]), " ") == if before == "" then t else before + " " + t
  {
    if |ts| == 0 {
      assert DropLeadingEmpty([t]) == (if t == "" then [] else [t]);
    } else if ts[0] == "" {
      assert (ts + [t])[1..] == ts[1..] + [t];
      DropLeadingEmptyAppend(ts[1..], t);
    } else {
      JoinAppend(ts, t, " ");
      JoinNonEmpty(ts);
    }
  }

  /** A join whose first part is non-empty is non-empty. */
  lemma JoinNonEmpty(ts: seq<string>)
    requires |ts| > 0 && ts[0] != ""
    ensures Join(ts, " ") != ""
  {
    if |ts| > 1 {
      assert |Join(ts, " ")| >= |ts[0]|;
    }
  }

  /** Leading empty paragraphs only add leading spaces, which `strip()` removes:
      the result is the paragraph texts joined by single spaces, stripped. */
  lemma {:induction false} StripIgnoresLeadingEmpty(ts: seq<string>)
    ensures Strip(Join(DropLeadingEmpty(ts), " ")) == Strip(Join(ts, " "))
  {
    if |ts| > 0 && ts[0] == "" {
      StripIgnoresLeadingEmpty(ts[1..]);
      assert DropLeadingEmpty(ts) == DropLeadingEmpty(ts[1..]);
      if |ts| > 1 {
        var rest := Join(ts[1..], " ");
        assert Join(ts, " ") == ts[0] + " " + rest;
        assert ts[0] + " " + rest == [' '] + rest;
        StripSkipsLeadingSpace(' ', rest);
      } else {
        assert ts[1..] == [];
      }
    }
  }

  // ---------------------------------------------------------------------------
  // remove_xml_from_abstract

  /** The cleaned abstract: `None` for a missing or empty abstract. */
  function CleanAbstract(abstractText: Option<string>, parse: string -> seq<Node>): Option<string> {
    match abstractText
    case None => None
    case Some(s) =>
      if s == "" then None
      else Some(Strip(Join(DropLeadingEmpty(ParagraphTexts(FindAllIn(ClearAll(parse(s))))), " ")))
  }

  /** `remove_xml_from_abstract`. */
  method RemoveXmlFromAbstract(abstractText: Option<string>, parse: string -> seq<Node>) returns (r: Option<string>)
    ensures r == CleanAbstract(abstractText, parse)
  {
    if abstractText.None? || abstractText.value == "" {
      return None;
    }
    var soup := ClearAll(parse(abstractText.value));
    var cleaned := AssembleParagraphs(FindAllIn(soup));
    return Some(Strip(cleaned));
  }

  /** A missing or empty abstract gives `None`; any other gives the paragraph
      texts with title contents cleared, joined by single spaces and stripped. */
  lemma CleanAbstractMeaning(abstractText: Option<string>, parse: string -> seq<Node>)
    ensures abstractText.None? || abstractText == Some("") ==> CleanAbstract(abstractText, parse) == None
    ensures abstractText.Some? && abstractText.value != "" ==>
      CleanAbstract(abstractText, parse) ==
        Some(Strip(Join(ParagraphTexts(FindAllIn(ClearAll(parse(abstractText.value)))), " ")))
  {
    if abstractText.Some? && abstractText.value != "" {
      StripIgnoresLeadingEmpty(ParagraphTexts(FindAllIn(ClearAll(parse(abstractText.value)))));
    }
  }

  predicate NoParagraph(elements: seq<Node>) {
    forall k :: 0 <= k < |elements| ==> !IsParagraph(elements[k])
  }

  lemma {:induction false} NoParagraphsNoTexts(elements: seq<Node>)
    requires NoParagraph(elements)
    ensures ParagraphTexts(elements) == []
  {
    if |elements| > 0 {
      NoParagraphsNoTexts(elements[1..]);
    }
  }

  /** A non-empty abstract without `jats:p` elements (plain text, say) is
      cleaned to the empty string, not to `None`; cleaning that result again
      gives `None`, so the cleaning is not idempotent on such text. */
  lemma PlainTextCleansToEmpty(s: string, parse: string -> seq<Node>)
    requires s != ""
    requires NoParagraph(FindAllIn(ClearAll(parse(s))))
    ensures CleanAbstract(Some(s), parse) == Some("")
    ensures CleanAbstract(CleanAbstract(Some(s), parse), parse) == None
  {
    var elements := FindAllIn(ClearAll(parse(s)));
    NoParagraphsNoTexts(elements);
    assert DropLeadingEmpty([]) == [];
    assert Join([], " ") == "";
    assert Strip("") == "";
  }

  // ---------------------------------------------------------------------------
  // Clearing the titles

  /** The character data outside every `jats:title`: a reference definition of
      what the paragraphs contribute once titles are cleared. */
  function TextOutsideTitles(n: Node): string {
    match n
    case Text(s) => s
    case Element(name, cs) =>
      if name == "jats:title" then ""
      else Concat(seq(|cs|, i requires 0 <= i < |cs| => TextOutsideTitles(cs[i])))
  }

  /** No `jats:title` below (or at) the node has children left. */
  predicate Cleared(n: Node) {
    match n
    case Text(_) => true
    case Element(name, cs) => (name == "jats:title" ==> cs == []) && forall i :: 0 <= i < |cs| ==> Cleared(cs[i])
  }

  /** After clearing, an element's text is exactly its text outside titles. */
  lemma {:induction false} ClearedText(n: Node)
    ensures GetText(ClearTitles(n)) == TextOutsideTitles(n)
    ensures Cleared(ClearTitles(n))
  {
    match n
    case Text(_) =>
    case Element(name, cs) =>
      if name == "jats:title" {
        assert GetText(ClearTitles(n)) == Concat([]);
      } else {
        var cs' := seq(|cs|, i requires 0 <= i < |cs| => ClearTitles(cs[i]));
        forall i | 0 <= i < |cs|
          ensures GetText(cs'[i]) == TextOutsideTitles(cs[i]) && Cleared(cs'[i])
        {
          ClearedText(cs[i]);
        }
        assert seq(|cs'|, i requires 0 <= i < |cs'| => GetText(cs'[i])) ==
               seq(|cs|, i requires 0 <= i < |cs| => TextOutsideTitles(cs[i]));
      }
  }

  /** Clearing twice is clearing once. */
  lemma {:induction false} ClearTitlesIdempotent(n: Node)
    ensures ClearTitles(ClearTitles(n)) == ClearTitles(n)
  {
    match n
    case Text(_) =>
    case Element(name, cs) =>
      if name != "jats:title" {
        var cs' := seq(|cs|, i requires 0 <= i < |cs| => ClearTitles(cs[i]));
        forall i | 0 <= i < |cs| ensures ClearTitles(cs'[i]) == cs'[i] {
          ClearTitlesIdempotent(cs[i]);
        }
        assert seq(|cs'|, i requires 0 <= i < |cs'| => ClearTitles(cs'[i])) == cs';
      }
  }

  /** In a cleared tree the text is the text outside titles. */
  lemma {:induction false} ClearedTextIsOutsideTitles(n: Node)
    requires Cleared(n)
    ensures GetText(n) == TextOutsideTitles(n)
  {
    match n
    case Text(_) =>
    case Element(name, cs) =>
      forall i | 0 <= i < |cs| ensures GetText(cs[i]) == TextOutsideTitles(cs[i]) {
        ClearedTextIsOutsideTitles(cs[i]);
      }
      if name == "jats:title" {
        assert GetText(n) == Concat([]);
      } else {
        assert seq(|cs|, i requires 0 <= i < |cs| => GetText(cs[i])) ==
               seq(|cs|, i requires 0 <= i < |cs| => TextOutsideTitles(cs[i]));
      }
  }

  /** Every element found in a cleared tree is cleared. */
  lemma {:induction false} FoundInClearedIsCleared(n: Node, e: Node)
    requires Cleared(n) && e in FindAll(n)
    ensures Cleared(e)
  {
    match n
    case Text(_) =>
    case Element(_, cs) =>
      if e != n {
        var parts := seq(|cs|, i requires 0 <= i < |cs| => FindAll(cs[i]));
        assert e in Concat(parts);
        ConcatMember(parts, e);
        var i :| 0 <= i < |parts| && e in parts[i];
        FoundInClearedIsCleared(cs[i], e);
      }
  }

  /** The paragraphs the cleaning reads carry no title text: each one's text is
      its character data outside every `jats:title`. */
  lemma ParagraphsWithoutTitleText(doc: seq<Node>, e: Node)
    requires e in FindAllIn(ClearAll(doc))
    ensures GetText(e) == TextOutsideTitles(e)
  {
    var cleared := ClearAll(doc);
    var parts := seq(|cleared|, i requires 0 <= i < |cleared| => FindAll(cleared[i]));
    ConcatMember(parts, e);
    var i :| 0 <= i < |parts| && e in parts[i];
    ClearedText(doc[i]);
    FoundInClearedIsCleared(cleared[i], e);
    ClearedTextIsOutsideTitles(e);
  }
}
