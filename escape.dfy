/** `escapeHtml` (script.js:34-43): every one of the five HTML-special
    characters is replaced by its entity, every other character is copied. */
module HtmlEscape {

  /** The characters the escaping regular expression `[&<>"']` matches. */
  predicate IsSpecial(c: char) {
    c == '&' || c == '<' || c == '>' || c == '"' || c == '\''
  }

  /** The characters that can open a tag or close an attribute value. */
  predicate IsMarkup(c: char) {
    c == '<' || c == '>' || c == '"' || c == '\''
  }

  /** The replacement table of the escaper. */
  function Entity(c: char): (r: string)
    ensures IsSpecial(c) ==> |r| > 1 && r[0] == '&'
    ensures !IsSpecial(c) ==> r == [c]
    ensures forall i :: 0 <= i < |r| ==> !IsMarkup(r[i])
  {
    match c
    case '&' => "&amp;"
    case '<' => "&lt;"
    case '>' => "&gt;"
    case '"' => "&quot;"
    case '\'' => "&#039;"
    case _ => [c]
  }

  /** The escaped text: no character of the result can open a tag or end a
      quoted attribute, and the result is never shorter than the input. */
  function EscapeHtml(s: string): (r: string)
    ensures |r| >= |s|
    ensures forall i :: 0 <= i < |r| ==> !IsMarkup(r[i])
  {
    if s == [] then [] else Entity(s[0]) + EscapeHtml(s[1..])
  }

  /** Reference decoder for the five entities of the table; any other text,
      including a lone `&`, is copied. */
  function Unescape(t: string): (r: string)
    ensures |r| <= |t|
  {
    if t == [] then []
    else if t[0] == '&' && |t| >= 5 && t[..5] == "&amp;" then "&" + Unescape(t[5..])
    else if t[0] == '&' && |t| >= 4 && t[..4] == "&lt;" then "<" + Unescape(t[4..])
    else if t[0] == '&' && |t| >= 4 && t[..4] == "&gt;" then ">" + Unescape(t[4..])
    else if t[0] == '&' && |t| >= 6 && t[..6] == "&quot;" then "\"" + Unescape(t[6..])
    else if t[0] == '&' && |t| >= 6 && t[..6] == "&#039;" then "'" + Unescape(t[6..])
    else [t[0]] + Unescape(t[1..])
  }

  /** Escaping works character by character, so it distributes over
      concatenation. */
  lemma {:induction false} EscapeConcat(a: string, b: string)
    ensures EscapeHtml(a + b) == EscapeHtml(a) + EscapeHtml(b)
  {
    if a == [] {
      assert a + b == b;
    } else {
      assert (a + b)[0] == a[0];
      assert (a + b)[1..] == a[1..] + b;
      EscapeConcat(a[1..], b);
    }
  }

  /** Each character is replaced by its table entry wherever it stands. */
  lemma EscapeSplits(a: string, c: char, b: string)
    ensures EscapeHtml(a + [c] + b) == EscapeHtml(a) + Entity(c) + EscapeHtml(b)
  {
    assert [c][1..] == [];
    assert EscapeHtml([c]) == Entity(c) + EscapeHtml([]);
    assert EscapeHtml([c]) == Entity(c);
    EscapeConcat(a + [c], b);
    EscapeConcat(a, [c]);
  }

  /** Escaping leaves a string alone exactly when it holds no special
      character. */
  lemma {:induction false} EscapeIdentityIff(s: string)
    ensures EscapeHtml(s) == s <==> forall i :: 0 <= i < |s| ==> !IsSpecial(s[i])
  {
    if s != [] {
      EscapeIdentityIff(s[1..]);
      var e := Entity(s[0]);
      if IsSpecial(s[0]) {
        assert |EscapeHtml(s)| == |e| + |EscapeHtml(s[1..])| > |s|;
      } else {
        assert EscapeHtml(s) == [s[0]] + EscapeHtml(s[1..]);
        if EscapeHtml(s) == s {
          assert EscapeHtml(s[1..]) == s[1..];
        }
        forall i | 0 < i < |s| ensures s[i] == s[1..][i - 1] { }
      }
    }
  }

  /** Decoding an entry of the table gives back its character. */
  lemma UnescapeEntity(c: char, rest: string)
    ensures Unescape(Entity(c) + rest) == [c] + Unescape(rest)
  {
    var t := Entity(c) + rest;
    var n := |Entity(c)|;
    assert t[..n] == Entity(c) && t[n..] == rest;
    if IsSpecial(c) {
      assert t[1] == Entity(c)[1];
      assert |t| >= 4 && t[..4] == "&lt;" ==> t[1] == 'l';
      assert |t| >= 4 && t[..4] == "&gt;" ==> t[1] == 'g';
      assert |t| >= 6 && t[..6] == "&quot;" ==> t[1] == 'q';
      assert |t| >= 5 && t[..5] == "&amp;" ==> t[1] == 'a';
    }
  }

  /** Escaping loses nothing: decoding the escaped text gives the text back. */
  lemma {:induction false} UnescapeEscape(s: string)
    ensures Unescape(EscapeHtml(s)) == s
  {
    if s != [] {
      UnescapeEscape(s[1..]);
      UnescapeEntity(s[0], EscapeHtml(s[1..]));
    }
  }
}
