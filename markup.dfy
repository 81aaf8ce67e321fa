/** The HTML fragment builders of the gallery viewer. `htmlEncode` is done
    by the DOM, so it is a parameter `enc` here. */
module Markup {
  import opened JsString

  const DivOpen := "<div class=\""
  const DivMid := "\">"
  const DivClose := "</div>"

  /** `rawDiv`: a `div` of the given class around `text`, which is not escaped. */
  function RawDiv(cl: string, text: string): string
  {
    DivOpen + cl + DivMid + text + DivClose
  }

  /** `textDiv`: the same `div` around the encoded text. */
  function TextDiv(cl: string, text: Value, enc: Value -> string): string
  {
    RawDiv(cl, enc(text))
  }

  /** A class without `"` can be read back from a `div`, and so can the
      text: the builder loses nothing. */
  lemma RawDivInjective(c1: string, t1: string, c2: string, t2: string)
    requires '"' !in c1 && '"' !in c2
    requires RawDiv(c1, t1) == RawDiv(c2, t2)
    ensures c1 == c2 && t1 == t2
  {
    var x1, x2 := DivMid + t1 + DivClose, DivMid + t2 + DivClose;
    var rest := RawDiv(c1, t1)[|DivOpen|..];
    assert rest == c1 + x1 && rest == c2 + x2;
    QuoteEnds(c1, x1);
    QuoteEnds(c2, x2);
    assert c1 == rest[..|c1|] && c2 == rest[..|c2|];
    assert x1 == rest[|c1|..] && x2 == rest[|c2|..];
    assert t1 == x1[2..|x1| - 6] && t2 == x2[2..|x2| - 6];
  }

  /** The first `"` of `c + u` is the one `u` starts with when `c` has none. */
  lemma QuoteEnds(c: string, u: string)
    requires '"' !in c && |u| > 0 && u[0] == '"'
    ensures IndexOf(c + u, '"') == |c|
  {
    assert (c + u)[|c|] == '"';
    assert forall j :: 0 <= j < |c| ==> (c + u)[j] == c[j];
  }
}
