/** Lines of text and white space. */
module Lines {
  import opened Sequences

  const NL: char := '\n'

  /** The white space of `str.strip` and of `\s` in regular expressions, as far as ASCII goes. */
  predicate IsSpace(c: char) {
    c == ' ' || '\t' <= c <= '\r' || '\U{1C}' <= c <= '\U{1F}'
  }

  predicate Blank(s: string) {
    forall k :: 0 <= k < |s| ==> IsSpace(s[k])
  }

  /** Each line with its line end. */
  function Render(lines: seq<string>): string {
    if lines == [] then [] else lines[0] + [NL] + Render(lines[1..])
  }

  lemma {:induction false} RenderAppend(a: seq<string>, b: seq<string>)
    ensures Render(a + b) == Render(a) + Render(b)
    decreases |a|
  {
    if a == [] {
      assert a + b == b;
    } else {
      RenderAppend(a[1..], b);
      assert (a + b)[0] == a[0] && (a + b)[1..] == a[1..] + b;
    }
  }
}
