/** `splitText(element, type)`: splits an element's trimmed text into one entry per character
    (`"chars"`) or into greedily wrapped lines (`"lines"`). The DOM spans are represented by the
    strings written into them. */
module SplitText {
  import opened Wrappers
  import opened JsStrings
  import opened LineWrap

  /** An element, seen through its `textContent`. */
  datatype Element = Element(textContent: string)

  /** The returned object; `None` is a property that is absent (`undefined`). */
  datatype SplitResult = SplitResult(chars: Option<seq<string>>, lines: Option<seq<string>>)

  const Empty := SplitResult(Some([]), Some([]))

  /** The markup written into the inner span of a character: a space becomes `&nbsp;`, any
      other character stands for itself, so the entry reads back as the character. */
  function CharEntry(c: char): (e: string)
    ensures e == "&nbsp;" <==> c == ' '
    ensures Unescape(e) == [c]
  {
    if c == ' ' then "&nbsp;" else assert |[c]| != |"&nbsp;"|; [c]
  }

  /** The text character an entry was made from. */
  function Unescape(e: string): string {
    if e == "&nbsp;" then " " else e
  }

  /** The characters the entries stand for, in order. */
  function Unescaped(es: seq<string>): string {
    if es == [] then "" else Unescaped(es[..|es| - 1]) + Unescape(es[|es| - 1])
  }

  /** Unescaping the entries of a text, in order, gives the text back. */
  lemma {:induction false} UnescapeEntries(text: string, chars: seq<string>)
    requires |chars| == |text| && forall i :: 0 <= i < |text| ==> chars[i] == CharEntry(text[i])
    ensures Unescaped(chars) == text
  {
    if text != [] {
      var n := |text| - 1;
      UnescapeEntries(text[..n], chars[..n]);
      assert text == text[..n] + [text[n]];
    }
  }

  /** The `"chars"` loop: one entry per character, in order; unescaping the entries gives the text back. */
  method SplitChars(text: string) returns (chars: seq<string>)
    ensures |chars| == |text|
    ensures forall i :: 0 <= i < |text| ==> chars[i] == CharEntry(text[i])
    ensures Unescaped(chars) == text
  {
    chars := [];
    for i := 0 to |text|
      invariant |chars| == i
      invariant forall k :: 0 <= k < i ==> chars[k] == CharEntry(text[k])
    {
      var entry := if text[i] == ' ' then "&nbsp;" else [text[i]];
      chars := chars + [entry];
    }
    UnescapeEntries(text, chars);
  }

  /** The `type` in force: the parameter defaults to `"chars"` when it is not given. */
  function Mode(kind: Option<string>): (m: string)
    ensures m == "chars" <==> kind.None? || kind.value == "chars"
    ensures kind.Some? ==> m == kind.value
  {
    if kind.None? then "chars" else kind.value
  }

  /** `splitText`; `width` measures a text in the element's font and `limit` is the element's
      `offsetWidth`. */
  method SplitElement(element: Option<Element>, kind: Option<string>, width: Measure, limit: nat)
    returns (r: SplitResult)
    ensures element.None? ==> r == Empty
    ensures element.Some? && Mode(kind) == "chars" ==>
              var t := Trim(element.value.textContent);
              r.lines.None? && r.chars.Some? && |r.chars.value| == |t|
              && (forall i :: 0 <= i < |t| ==> r.chars.value[i] == CharEntry(t[i]))
              && Unescaped(r.chars.value) == t
    ensures element.Some? && Mode(kind) == "lines" ==>
              var t := Trim(element.value.textContent);
              r.chars.None? && r.lines == Some(Wrap(Split(t), width, limit))
              && (t == "" ==> r.lines.value == [])
              && (WellSpaced(t) ==> Join(r.lines.value) == t && HasNoEmptyWord(r.lines.value))
    ensures element.Some? && Mode(kind) != "chars" && Mode(kind) != "lines" ==> r == Empty
  {
    if element.None? {
      return Empty;
    }
    var originalText := Trim(element.value.textContent);
    var mode := Mode(kind);
    if mode == "chars" {
      var chars := SplitChars(originalText);
      r := SplitResult(Some(chars), None);
    } else if mode == "lines" {
      var words := Split(originalText);
      var lines := WrapLines(words, width, limit);
      if originalText == "" {
        FirstWordNeverBreaks("", width, limit);
      }
      if WellSpaced(originalText) {
        SplitHasNoEmptyWord(originalText);
        JoinSplit(originalText);
      }
      r := SplitResult(None, Some(lines));
    } else {
      r := Empty;
    }
  }
}
