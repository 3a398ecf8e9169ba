/** `View`: HTML escaping and the unordered-list builder used by the
    templates. */
module View {

  /** The entity `htmlspecialchars` with `ENT_QUOTES` writes for one
      character; other characters are kept. */
  function EscapeChar(c: char): (r: string)
    ensures r != []
    ensures c in "&\"'<>" ==> r[0] == '&'
    ensures c !in "&\"'<>" ==> r == [c]
  {
    if c == '&' then "&amp;"
    else if c == '"' then "&quot;"
    else if c == '\'' then "&#039;"
    else if c == '<' then "&lt;"
    else if c == '>' then "&gt;"
    else [c]
  }

  /** `View::escape` of a string: `htmlspecialchars($s, ENT_QUOTES)`. */
  function Escape(s: string): (r: string)
    ensures forall c :: c in r ==> c !in "\"'<>"
    ensures |r| >= |s|
  {
    if s == [] then []
    else
      var head := EscapeChar(s[0]);
      var rest := Escape(s[1..]);
      assert forall c :: c in head ==> c !in "\"'<>";
      head + rest
  }

  /** The first character `Unescape` reads at the front of `s`, and how
      many characters it spans: one of the five entities, or a single
      character. */
  function DecodeFirst(s: string): (r: (char, nat))
    requires s != []
    ensures 1 <= r.1 <= |s|
  {
    if s[0] != '&' then (s[0], 1)
    else if |s| >= 5 && s[..5] == "&amp;" then ('&', 5)
    else if |s| >= 6 && s[..6] == "&quot;" then ('"', 6)
    else if |s| >= 6 && s[..6] == "&#039;" then ('\'', 6)
    else if |s| >= 4 && s[..4] == "&lt;" then ('<', 4)
    else if |s| >= 4 && s[..4] == "&gt;" then ('>', 4)
    else (s[0], 1)
  }

  /** Decoding of the five entities `Escape` writes; any other `&` is kept
      as it stands. */
  function Unescape(s: string): string
    decreases |s|
  {
    if s == [] then []
    else
      var (c, n) := DecodeFirst(s);
      [c] + Unescape(s[n..])
  }

  /** The front of an escaped character decodes to that character. */
  lemma DecodeEscaped(c: char, rest: string)
    ensures DecodeFirst(EscapeChar(c) + rest) == (c, |EscapeChar(c)|)
  {
    var e := EscapeChar(c);
    var s := e + rest;
    assert s[..|e|] == e;
    if c in "&\"'<>" {
      assert s[0] == '&' && s[1] == e[1];
      assert |s| >= 5 ==> s[..5][1] == s[1];
      assert |s| >= 6 ==> s[..6][1] == s[1];
      assert |s| >= 4 ==> s[..4][1] == s[1];
    } else {
      assert "&\"'<>"[0] == '&';
      assert s[0] == c && c != '&';
    }
  }

  /** Decoding one escaped character in front of the rest. */
  lemma UnescapeStep(c: char, rest: string)
    ensures Unescape(EscapeChar(c) + rest) == [c] + Unescape(rest)
  {
    var e := EscapeChar(c);
    DecodeEscaped(c, rest);
    assert (e + rest)[|e|..] == rest;
  }

  /** Escaping loses nothing: decoding the output gives the input back. */
  lemma {:induction false} UnescapeEscape(s: string)
    ensures Unescape(Escape(s)) == s
    decreases |s|
  {
    if s != [] {
      UnescapeStep(s[0], Escape(s[1..]));
      UnescapeEscape(s[1..]);
      assert [s[0]] + s[1..] == s;
    }
  }

  /** Different strings escape differently. */
  lemma EscapeInjective(a: string, b: string)
    requires Escape(a) == Escape(b)
    ensures a == b
  {
    UnescapeEscape(a);
    UnescapeEscape(b);
  }

  /** The list items for `items`, in order, each inserted verbatim. */
  function ListItems(items: seq<string>): (r: string)
    ensures |r| >= 9 * |items|
  {
    if items == [] then [] else ListItems(items[..|items| - 1]) + "<li>" + items[|items| - 1] + "</li>"
  }

  /** `View::arrayToUnorderedList`. */
  method ArrayToUnorderedList(items: seq<string>) returns (out: string)
    ensures out == "<ul>" + ListItems(items) + "</ul>"
  {
    out := "<ul>";
    var i := 0;
    while i < |items|
      invariant 0 <= i <= |items|
      invariant out == "<ul>" + ListItems(items[..i])
    {
      assert items[..i + 1][..i] == items[..i];
      out := out + "<li>" + items[i] + "</li>";
      i := i + 1;
    }
    assert items[..i] == items;
    out := out + "</ul>";
  }

  /** The items of a concatenation are those of each part, in order. */
  lemma {:induction false} ListItemsAppend(a: seq<string>, b: seq<string>)
    ensures ListItems(a + b) == ListItems(a) + ListItems(b)
    decreases |b|
  {
    if b == [] {
      assert a + b == a;
    } else {
      var b' := b[..|b| - 1];
      assert (a + b)[..|a + b| - 1] == a + b';
      ListItemsAppend(a, b');
    }
  }

  /** The item at `i` closes the items of the prefix that ends with it. */
  lemma ListItemsOfPrefix(items: seq<string>, i: nat)
    requires i < |items|
    ensures ListItems(items[..i + 1]) == ListItems(items[..i]) + "<li>" + items[i] + "</li>"
  {
    assert items[..i + 1][..i] == items[..i];
  }

  /** Every item appears, in input order, as `<li>item</li>` between the
      items before it and the items after it. */
  lemma ListItemsInOrder(items: seq<string>, i: nat)
    requires i < |items|
    ensures ListItems(items) == ListItems(items[..i]) + "<li>" + items[i] + "</li>" + ListItems(items[i + 1..])
  {
    assert items == items[..i + 1] + items[i + 1..];
    ListItemsAppend(items[..i + 1], items[i + 1..]);
    ListItemsOfPrefix(items, i);
  }
}
