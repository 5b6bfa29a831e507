/**
  * The markdown-subset formatter that turns a model reply into the HTML shown in
  * the assistant bubble: text between `**` pairs becomes bold, and every `*` left
  * over becomes a line break.
  */
module Markdown {
  import opened JsText

  /** A JavaScript value handed to the formatter: a string, or anything else. */
  datatype JsValue = JsString(s: string) | NonString

  /** The bold tags and the line break the formatter emits. */
  const BoldOpen: string := "<b>"
  const BoldClose: string := "</b>"
  const LineBreak: string := "</br>"

  /** Segment `i` of the `**` split: copied at even indices, wrapped in `open`/`close` at odd ones. */
  function Piece(i: nat, segment: string, open: string, close: string): string {
    if i == 0 || i % 2 != 1 then segment else open + segment + close
  }

  /** The pieces of `segments` concatenated in order. */
  function Emphasize(segments: seq<string>, open: string, close: string): string
    decreases |segments|
  {
    if segments == [] then ""
    else
      var n := |segments| - 1;
      Emphasize(segments[..n], open, close) + Piece(n, segments[n], open, close)
  }

  /** Emphasizing grows at the back by the piece of the last segment. */
  lemma EmphasizeLast(segments: seq<string>, open: string, close: string)
    requires |segments| >= 1
    ensures var n := |segments| - 1;
      Emphasize(segments, open, close) == Emphasize(segments[..n], open, close) + Piece(n, segments[n], open, close)
  {
  }

  /** Emphasizing one more segment of a list appends that segment's piece. */
  lemma EmphasizePrefix(segments: seq<string>, i: nat, open: string, close: string)
    requires i < |segments|
    ensures Emphasize(segments[..i + 1], open, close)
         == Emphasize(segments[..i], open, close) + Piece(i, segments[i], open, close)
  {
    EmphasizeLast(segments[..i + 1], open, close);
    assert segments[..i + 1][..i] == segments[..i];
  }

  /** The total length of the segments. */
  function TotalLength(segments: seq<string>): nat
    decreases |segments|
  {
    if segments == [] then 0 else TotalLength(segments[..|segments| - 1]) + |segments[|segments| - 1]|
  }

  /** The first pass: `s` split on `**`, with the odd-indexed segments in bold tags. */
  function Bolded(s: string): string {
    Emphasize(Split(s, "**"), BoldOpen, BoldClose)
  }

  /** The second pass: `t` split on `*` and joined again with line breaks. */
  function Broken(t: string): string {
    Join(Split(t, "*"), LineBreak)
  }

  /** What `formatMarkdownToHTML` returns for `raw`. */
  function Formatted(raw: JsValue): string {
    match raw
    case NonString => ""
    case JsString(s) => if s == "" then "" else Broken(Bolded(s))
  }

  /**
    * `formatMarkdownToHTML`: split on `**`, wrap the odd-indexed segments in bold
    * tags while accumulating, then replace each remaining `*` by a line break.
    */
  method FormatMarkdownToHtml(raw: JsValue) returns (html: string)
    ensures html == Formatted(raw)
  {
    if raw.NonString? || raw.s == "" {
      return "";
    }
    var segments := Split(raw.s, "**");
    var acc := "";
    for i := 0 to |segments|
      invariant acc == Emphasize(segments[..i], BoldOpen, BoldClose)
    {
      EmphasizePrefix(segments, i, BoldOpen, BoldClose);
      if i == 0 || i % 2 != 1 {
        acc := acc + segments[i];
      } else {
        acc := acc + (BoldOpen + segments[i] + BoldClose);
      }
    }
    assert segments[..|segments|] == segments;
    html := Join(Split(acc, "*"), LineBreak);
  }

  /** No `*` survives formatting. */
  lemma FormattedHasNoStar(raw: JsValue)
    ensures '*' !in Formatted(raw)
  {
    if raw.JsString? && raw.s != "" {
      SplitJoinReplace(Bolded(raw.s), '*', LineBreak);
    }
  }

  /** The formatter returns `""` for the empty string and for every non-string. */
  lemma FormattedEmpty(raw: JsValue)
    requires raw == NonString || raw == JsString("")
    ensures Formatted(raw) == ""
  {
  }

  /** Text without any `*` is returned unchanged. */
  lemma FormattedStarFree(s: string)
    requires '*' !in s
    ensures Formatted(JsString(s)) == s
  {
    if s != "" {
      SplitWithout(s, "**");
      assert Emphasize([s], BoldOpen, BoldClose) == s by {
        assert [s][..0] == [];
      }
      SplitWithout(s, "*");
    }
  }

  /**
    * Emphasizing with `sep` on both sides of every odd segment rebuilds the join,
    * plus one closing `sep` exactly when the last segment opened a bold span.
    */
  lemma {:induction false} EmphasizeAsJoin(segments: seq<string>, sep: string)
    requires |segments| >= 1
    ensures Emphasize(segments, sep, sep)
         == Join(segments, sep) + (if |segments| % 2 == 0 then sep else "")
    decreases |segments|
  {
    var n := |segments| - 1;
    EmphasizeLast(segments, sep, sep);
    if n == 0 {
      assert segments[..n] == [];
    } else {
      var init, last := segments[..n], segments[n];
      EmphasizeAsJoin(init, sep);
      JoinLast(segments, sep);
      var j := Join(init, sep);
      NextParity(n);
      if n % 2 == 1 {
        assert Emphasize(init, sep, sep) == j;
        Regroup(j, sep, last, sep);
        assert Emphasize(segments, sep, sep) == Join(segments, sep) + sep;
      } else {
        assert Emphasize(init, sep, sep) == j + sep;
        Regroup(j, sep, last, "");
        assert Emphasize(segments, sep, sep) == Join(segments, sep);
      }
    }
  }

  /** The successor of an odd number is even, and of an even number odd. */
  lemma NextParity(n: nat)
    ensures (n + 1) % 2 == 0 <==> n % 2 == 1
  {
  }

  /** Concatenation regrouped. */
  lemma Regroup(a: string, b: string, c: string, d: string)
    ensures a + (b + c + d) == a + b + c + d
    ensures (a + b) + c + d == a + b + c + d
  {
  }

  /**
    * The bold pass is undone by writing `**` back for both tags: the input comes
    * back, with one `**` appended exactly when a bold span was left unclosed
    * (an even number of segments).
    */
  lemma BoldPassRestoresInput(s: string)
    ensures var segments := Split(s, "**");
      Emphasize(segments, "**", "**") == s + (if |segments| % 2 == 0 then "**" else "")
  {
    EmphasizeAsJoin(Split(s, "**"), "**");
    JoinSplit(s, "**");
  }

  /** Each odd-indexed segment gains exactly one opening and one closing tag; nothing else is added. */
  lemma {:induction false} EmphasizeLength(segments: seq<string>, open: string, close: string)
    ensures |Emphasize(segments, open, close)| == TotalLength(segments) + (|segments| / 2) * (|open| + |close|)
    decreases |segments|
  {
    if segments != [] {
      var n, k := |segments| - 1, |open| + |close|;
      var init, last := segments[..n], segments[n];
      EmphasizeLast(segments, open, close);
      EmphasizeLength(init, open, close);
      NextHalf(n);
      if n % 2 == 1 {
        MulSucc(n / 2, k);
        assert |Piece(n, last, open, close)| == |last| + k;
      } else {
        assert |Piece(n, last, open, close)| == |last|;
      }
    }
  }

  /** Halving the successor: one more exactly when `n` is odd. */
  lemma NextHalf(n: nat)
    ensures (n + 1) / 2 == if n % 2 == 1 then n / 2 + 1 else n / 2
  {
  }

  /** One more factor of `k`. */
  lemma MulSucc(h: nat, k: nat)
    ensures (h + 1) * k == h * k + k
  {
  }

  /** When the bold pass leaves no star, the second pass changes nothing. */
  lemma FormattedWhenBoldedStarFree(s: string, segments: seq<string>)
    requires s != "" && Split(s, "**") == segments
    requires '*' !in Emphasize(segments, BoldOpen, BoldClose)
    ensures Formatted(JsString(s)) == Emphasize(segments, BoldOpen, BoldClose)
  {
    SplitWithout(Bolded(s), "*");
  }

  /** Two segments: the first is kept, the second is bold. */
  lemma EmphasizeTwo(a: string, b: string)
    ensures Emphasize([a, b], BoldOpen, BoldClose) == a + BoldOpen + b + BoldClose
  {
    EmphasizeLast([a, b], BoldOpen, BoldClose);
    assert [a, b][..1] == [a];
    EmphasizeLast([a], BoldOpen, BoldClose);
    assert [a][..0] == [];
  }

  /** An unclosed `**` still wraps the rest of the text in bold: `"a**b"` becomes `"a<b>b</b>"`. */
  lemma UnclosedBold(a: string, b: string)
    requires '*' !in a && '*' !in b
    ensures Formatted(JsString(a + "**" + b)) == a + BoldOpen + b + BoldClose
  {
    SplitFront(a, "**", b);
    SplitWithout(b, "**");
    EmphasizeTwo(a, b);
    FormattedWhenBoldedStarFree(a + "**" + b, [a, b]);
  }

  /** A closed pair of `**` markers makes exactly the text between them bold. */
  lemma ClosedBold(a: string, b: string, c: string)
    requires '*' !in a && '*' !in b && '*' !in c
    ensures Formatted(JsString(a + "**" + b + "**" + c)) == a + BoldOpen + b + BoldClose + c
  {
    var s := a + "**" + b + "**" + c;
    assert Split(s, "**") == [a, b, c] by {
      assert s == a + "**" + (b + "**" + c);
      SplitFront(a, "**", b + "**" + c);
      SplitFront(b, "**", c);
      SplitWithout(c, "**");
    }
    assert Emphasize([a, b, c], BoldOpen, BoldClose) == a + BoldOpen + b + BoldClose + c by {
      EmphasizeLast([a, b, c], BoldOpen, BoldClose);
      assert [a, b, c][..2] == [a, b];
      EmphasizeTwo(a, b);
    }
    FormattedWhenBoldedStarFree(s, [a, b, c]);
  }

  /**
    * Splitting is leftmost and non-overlapping: three stars cut after the first
    * two, leaving one star in the next segment, so `"***"` splits into `""` and `"*"`.
    */
  lemma SplitTripleStar(a: string, b: string)
    requires '*' !in a && '*' !in b
    ensures Split(a + "***" + b, "**") == [a, "*" + b]
  {
    assert a + "***" + b == a + "**" + ("*" + b);
    SplitFront(a, "**", "*" + b);
    var t := "*" + b;
    if b != [] {
      assert t[..2] != "**" by { assert t[..2][1] == b[0]; }
      assert t[1..] == b;
      SplitWithout(b, "**");
    }
  }

  /** The star left over by `"***"` turns into a line break inside the bold span. */
  lemma TripleStar(a: string, b: string)
    requires '*' !in a && '*' !in b
    ensures Formatted(JsString(a + "***" + b)) == a + BoldOpen + LineBreak + b + BoldClose
  {
    var s := a + "***" + b;
    SplitTripleStar(a, b);
    EmphasizeTwo(a, "*" + b);
    var x, y := a + BoldOpen, b + BoldClose;
    assert Bolded(s) == x + "*" + y;
    SplitFront(x, "*", y);
    SplitWithout(y, "*");
    assert Split(Bolded(s), "*") == [x, y];
    JoinTwo(x, y, LineBreak);
    assert Broken(Bolded(s)) == x + LineBreak + y;
    assert |s| == |a| + 3 + |b|;
  }
}
