/** The pieces of JavaScript's string library that `splitText` relies on:
    `String.prototype.trim`, `split(" ")`, and `join(" ")` (the inverse of the split). */
module JsStrings {

  /** The characters `trim` removes: ECMAScript's WhiteSpace and LineTerminator code points. */
  predicate IsJsWhitespace(c: char) {
    c == '\t' || c == '\n' || c == '\U{000B}' || c == '\U{000C}' || c == '\r' || c == ' '
    || c == '\U{00A0}' || c == '\U{1680}' || ('\U{2000}' <= c <= '\U{200A}')
    || c == '\U{2028}' || c == '\U{2029}' || c == '\U{202F}' || c == '\U{205F}'
    || c == '\U{3000}' || c == '\U{FEFF}'
  }

  predicate AllWhitespace(s: string) {
    forall k :: 0 <= k < |s| ==> IsJsWhitespace(s[k])
  }

  lemma WhitespaceCons(c: char, s: string)
    requires IsJsWhitespace(c) && AllWhitespace(s)
    ensures AllWhitespace([c] + s)
  {
    assert forall k :: 1 <= k <= |s| ==> ([c] + s)[k] == s[k - 1];
  }

  /** Drops the leading whitespace: the result is the longest suffix that does not start with whitespace. */
  function TrimStart(s: string): (r: string)
    ensures |r| <= |s| && r == s[|s| - |r|..]
    ensures AllWhitespace(s[..|s| - |r|])
    ensures r == [] || !IsJsWhitespace(r[0])
  {
    if s == [] || !IsJsWhitespace(s[0]) then s
    else
      var r := TrimStart(s[1..]);
      WhitespaceCons(s[0], s[1..][..|s| - 1 - |r|]);
      assert s[..|s| - |r|] == [s[0]] + s[1..][..|s| - 1 - |r|];
      r
  }

  /** Drops the trailing whitespace: the result is the longest prefix that does not end with whitespace. */
  function TrimEnd(s: string): (r: string)
    ensures |r| <= |s| && r == s[..|r|]
    ensures AllWhitespace(s[|r|..])
    ensures r == [] || !IsJsWhitespace(r[|r| - 1])
  {
    if s == [] || !IsJsWhitespace(s[|s| - 1]) then s
    else
      var r := TrimEnd(s[..|s| - 1]);
      assert s[|r|..] == s[..|s| - 1][|r|..] + [s[|s| - 1]];
      r
  }

  /** `r` is `s` with the whitespace before position `i` and after `r` removed. */
  predicate TrimmedAt(s: string, r: string, i: nat) {
    i <= |s| - |r| && r == s[i..i + |r|] && AllWhitespace(s[..i]) && AllWhitespace(s[i + |r|..])
  }

  /** `s.trim()`: `s` is whitespace, then the result, then whitespace, and the result
      neither starts nor ends with whitespace. */
  function Trim(s: string): (r: string)
    ensures r == [] || (!IsJsWhitespace(r[0]) && !IsJsWhitespace(r[|r| - 1]))
    ensures exists i: nat :: TrimmedAt(s, r, i)
  {
    var t := TrimStart(s);
    var r := TrimEnd(t);
    TrimParts(s, t, r);
    var i := |s| - |t|;
    assert AllWhitespace(s[i + |r|..]) by { assert AllWhitespace(t[|r|..]); }
    assert TrimmedAt(s, r, i);
    r
  }

  /** Where the result of trimming the start, then the end, lies in the original text. */
  lemma TrimParts(s: string, t: string, r: string)
    requires |t| <= |s| && t == s[|s| - |t|..] && |r| <= |t| && r == t[..|r|]
    ensures |s| - |t| + |r| <= |s|
    ensures r == s[|s| - |t|..|s| - |t| + |r|]
    ensures t[|r|..] == s[|s| - |t| + |r|..]
  {
  }

  lemma TrimIdempotent(s: string)
    ensures Trim(Trim(s)) == Trim(s)
  {
    var r := Trim(s);
    assert TrimStart(r) == r;
    assert TrimEnd(r) == r;
  }

  /** `s.split(" ")`: the pieces between spaces, so one more piece than `s` has spaces;
      `"".split(" ")` is `[""]`. */
  function Split(s: string): (r: seq<string>)
    ensures |r| >= 1
    ensures forall i :: 0 <= i < |r| ==> ' ' !in r[i]
    ensures r[0] == "" <==> (s == [] || s[0] == ' ')
  {
    if s == [] then [""]
    else if s[0] == ' ' then [""] + Split(s[1..])
    else
      var rest := Split(s[1..]);
      [[s[0]] + rest[0]] + rest[1..]
  }

  /** `ws.join(" ")`. */
  function Join(ws: seq<string>): string {
    if |ws| == 0 then ""
    else if |ws| == 1 then ws[0]
    else ws[0] + " " + Join(ws[1..])
  }

  predicate HasNoEmptyWord(ws: seq<string>) {
    forall i :: 0 <= i < |ws| ==> ws[i] != ""
  }

  predicate HasNoSpace(ws: seq<string>) {
    forall i :: 0 <= i < |ws| ==> ' ' !in ws[i]
  }

  /** Text whose split has no empty piece: non-empty, not starting with a space, and every
      space followed by a character that is not a space (so no trailing or doubled spaces). */
  predicate WellSpaced(s: string) {
    s != [] && s[0] != ' ' && SpacesFollowed(s)
  }

  predicate SpacesFollowed(s: string) {
    forall i :: 0 <= i < |s| && s[i] == ' ' ==> i + 1 < |s| && s[i + 1] != ' '
  }

  /** Splitting and joining again gives back the text. */
  lemma {:induction false} JoinSplit(s: string)
    ensures Join(Split(s)) == s
  {
    if s == [] {
    } else if s[0] == ' ' {
      JoinSplit(s[1..]);
      assert s == [' '] + s[1..];
    } else {
      var rest := Split(s[1..]);
      JoinSplit(s[1..]);
      if |rest| == 1 {
        assert s == [s[0]] + s[1..];
      } else {
        assert rest == [rest[0]] + rest[1..];
        assert Join(rest) == rest[0] + " " + Join(rest[1..]);
        assert s == [s[0]] + s[1..];
      }
    }
  }

  /** Splitting a space-free word followed by `t` glues the word onto the first piece of `t`. */
  lemma {:induction false} SplitAfterWord(w: string, t: string)
    requires ' ' !in w
    ensures Split(w + t) == [w + Split(t)[0]] + Split(t)[1..]
  {
    if w == [] {
      assert w + t == t;
      assert w + Split(t)[0] == Split(t)[0];
      assert Split(t) == [Split(t)[0]] + Split(t)[1..];
    } else {
      SplitAfterWord(w[1..], t);
      assert w[0] in w;
      assert (w + t)[0] == w[0] && (w + t)[1..] == w[1..] + t;
      var rest := Split(w[1..] + t);
      assert Split(w + t) == [[w[0]] + rest[0]] + rest[1..];
      assert [w[0]] + (w[1..] + Split(t)[0]) == w + Split(t)[0];
    }
  }

  /** Joining space-free words and splitting again gives back the words. */
  lemma {:induction false} SplitJoin(ws: seq<string>)
    requires |ws| >= 1 && HasNoSpace(ws)
    ensures Split(Join(ws)) == ws
  {
    if |ws| == 1 {
      SplitAfterWord(ws[0], "");
      assert ws[0] + "" == ws[0];
    } else {
      SplitJoin(ws[1..]);
      var t := " " + Join(ws[1..]);
      SplitAfterWord(ws[0], t);
      assert t[1..] == Join(ws[1..]);
      assert ws[0] + " " + Join(ws[1..]) == ws[0] + t;
      assert ws[0] + "" == ws[0];
    }
  }

  lemma {:induction false} TailPiecesNonEmpty(s: string)
    ensures HasNoEmptyWord(Split(s)[1..]) <==> SpacesFollowed(s)
  {
    if s == [] {
    } else if s[0] == ' ' {
      TailPiecesNonEmpty(s[1..]);
      var t := s[1..];
      assert Split(t) == [Split(t)[0]] + Split(t)[1..];
      if SpacesFollowed(s) {
        assert forall i :: 0 <= i < |t| && t[i] == ' ' ==> i + 1 < |t| && t[i + 1] != ' ' by {
          forall i | 0 <= i < |t| && t[i] == ' ' ensures i + 1 < |t| && t[i + 1] != ' ' {
            assert s[i + 1] == ' ';
          }
        }
      }
      if HasNoEmptyWord(Split(s)[1..]) {
        assert Split(t)[0] != "";
        forall i | 0 <= i < |s| && s[i] == ' ' ensures i + 1 < |s| && s[i + 1] != ' ' {
          if i > 0 { assert t[i - 1] == ' '; }
        }
      }
    } else {
      TailPiecesNonEmpty(s[1..]);
      var t := s[1..];
      assert Split(s)[1..] == Split(t)[1..];
      if SpacesFollowed(t) {
        forall i | 0 <= i < |s| && s[i] == ' ' ensures i + 1 < |s| && s[i + 1] != ' ' {
          assert t[i - 1] == ' ';
        }
      }
      if SpacesFollowed(s) {
        forall i | 0 <= i < |t| && t[i] == ' ' ensures i + 1 < |t| && t[i + 1] != ' ' {
          assert s[i + 1] == ' ';
        }
      }
    }
  }

  /** No piece of the split is empty exactly when the text is well spaced. */
  lemma SplitHasNoEmptyWord(s: string)
    ensures HasNoEmptyWord(Split(s)) <==> WellSpaced(s)
  {
    TailPiecesNonEmpty(s);
    var r := Split(s);
    assert r == [r[0]] + r[1..];
  }

  /** Joining two non-empty lists of words puts one space between them. */
  lemma {:induction false} JoinAppend(a: seq<string>, b: seq<string>)
    requires |a| >= 1 && |b| >= 1
    ensures Join(a + b) == Join(a) + " " + Join(b)
  {
    if |a| > 1 {
      JoinAppend(a[1..], b);
      assert (a + b)[1..] == a[1..] + b;
    } else {
      assert (a + b)[1..] == b;
    }
  }
}
