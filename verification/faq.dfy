/** The FAQ block both the queue drain and the reprocessor append to a post:
    an h2 heading, then an h3 question and a paragraph answer per entry, each
    text passed through `esc_html` (here the parameter `esc`). */
module Faq {
  import opened Wrappers
  import opened Text
  import opened Json

  const Marker := "Frequently Asked Questions"
  const Header := "\n\n<h2>" + Marker + "</h2>\n\n"
  const Between := "</h3>\n<p>"
  const Trailer := "</p>\n\n"

  function Entry(question: string, answer: string): string
  {
    "<h3>" + question + Between + answer + Trailer
  }

  /** The escaped question and answer of each entry, in list order; an entry
      without them contributes empty texts, as PHP reads a missing key as null. */
  function Pairs(faqs: seq<Value>, esc: string -> string): seq<(string, string)>
  {
    seq(|faqs|, i requires 0 <= i < |faqs| =>
      (esc(ToText(Get(faqs[i], "question"))), esc(ToText(Get(faqs[i], "answer")))))
  }

  function Entries(pairs: seq<(string, string)>): string
  {
    if pairs == [] then "" else Entry(pairs[0].0, pairs[0].1) + Entries(pairs[1..])
  }

  /** The block for the `faqs` array of a reply. */
  function Block(faqs: Value, esc: string -> string): (r: string)
    ensures HasPrefix(r, Header)
    ensures Contains(r, Marker)
  {
    var r := Header + Entries(Pairs(Elements(faqs), esc));
    assert r[..|Header|] == Header;
    assert r[2..2 + 4 + |Marker|][4..] == Marker;
    ContainsAt(r, Marker, 6);
    r
  }

  // ---------------------------------------------------------------------
  // reading a block back
  // ---------------------------------------------------------------------

  predicate NoAngle(s: string) {
    forall i :: 0 <= i < |s| ==> s[i] != '<'
  }

  predicate PairsNoAngle(pairs: seq<(string, string)>) {
    forall i :: 0 <= i < |pairs| ==> NoAngle(pairs[i].0) && NoAngle(pairs[i].1)
  }

  /** Length of the prefix of `s` before its first `<`. */
  function Span(s: string): (n: nat)
    ensures n <= |s| && NoAngle(s[..n]) && (n == |s| || s[n] == '<')
  {
    if s == [] || s[0] == '<' then 0
    else
      var n := 1 + Span(s[1..]);
      assert s[..n] == [s[0]] + s[1..][..n - 1];
      n
  }

  /** Splits a run of entries back into their texts; `None` when the text is
      not a run of entries. */
  function ParseEntries(s: string): Option<seq<(string, string)>>
    decreases |s|
  {
    if s == [] then Some([])
    else if !HasPrefix(s, "<h3>") then None
    else
      var u := s[4..];
      var q := u[..Span(u)];
      var v := u[Span(u)..];
      if !HasPrefix(v, Between) then None
      else
        var w := v[|Between|..];
        var a := w[..Span(w)];
        var x := w[Span(w)..];
        if !HasPrefix(x, Trailer) then None
        else
          match ParseEntries(x[|Trailer|..])
          case None => None
          case Some(ps) => Some([(q, a)] + ps)
  }

  function ParseBlock(s: string): Option<seq<(string, string)>>
  {
    if HasPrefix(s, Header) then ParseEntries(s[|Header|..]) else None
  }

  lemma SpanOf(x: string, y: string)
    requires NoAngle(x)
    requires y != [] && y[0] == '<'
    ensures Span(x + y) == |x|
    decreases |x|
  {
    if x != [] {
      assert (x + y)[1..] == x[1..] + y;
      SpanOf(x[1..], y);
    } else {
      assert x + y == y;
    }
  }

  /** One entry, then the rest, reads back as its two texts, then the rest. */
  lemma ParseEntryStep(q: string, a: string, t: string)
    requires NoAngle(q) && NoAngle(a)
    ensures ParseEntries(Entry(q, a) + t) ==
      match ParseEntries(t)
      case None => None
      case Some(ps) => Some([(q, a)] + ps)
  {
    var x0 := Trailer + t;
    var w := a + x0;
    var v0 := Between + w;
    var u := q + v0;
    var s := "<h3>" + u;
    EntryNested(q, a, t);
    PrefixThen("<h3>", u);
    SpanOf(q, v0);
    PrefixThen(q, v0);
    PrefixThen(Between, w);
    SpanOf(a, x0);
    PrefixThen(a, x0);
    PrefixThen(Trailer, t);
  }

  /** An entry followed by more text, written as one right-nested sequence. */
  lemma EntryNested(q: string, a: string, t: string)
    ensures Entry(q, a) + t == "<h3>" + (q + (Between + (a + (Trailer + t))))
  {
    SplitAfter("<h3>" + q + Between, a, Trailer, t);
    SplitAfter("<h3>", q, Between, a + (Trailer + t));
  }

  lemma {:induction false} ParseEntriesRoundTrip(pairs: seq<(string, string)>)
    requires PairsNoAngle(pairs)
    ensures ParseEntries(Entries(pairs)) == Some(pairs)
    decreases |pairs|
  {
    if pairs != [] {
      ParseEntriesRoundTrip(pairs[1..]);
      EntriesCons(pairs);
    }
  }

  lemma EntriesCons(pairs: seq<(string, string)>)
    requires pairs != [] && PairsNoAngle(pairs)
    requires ParseEntries(Entries(pairs[1..])) == Some(pairs[1..])
    ensures ParseEntries(Entries(pairs)) == Some(pairs)
  {
    var q, a, t := pairs[0].0, pairs[0].1, Entries(pairs[1..]);
    assert NoAngle(q) && NoAngle(a);
    assert Entries(pairs) == Entry(q, a) + t;
    ParseEntryStep(q, a, t);
    assert [(q, a)] + pairs[1..] == pairs;
  }

  /** A block reads back as exactly the escaped question/answer pairs, in the
      order of the FAQ list, whenever the escaped texts hold no `<` (as
      `esc_html` output never does). */
  lemma BlockRoundTrip(faqs: Value, esc: string -> string)
    requires PairsNoAngle(Pairs(Elements(faqs), esc))
    ensures ParseBlock(Block(faqs, esc)) == Some(Pairs(Elements(faqs), esc))
  {
    var e := Entries(Pairs(Elements(faqs), esc));
    var b := Block(faqs, esc);
    assert b == Header + e;
    assert b[|Header|..] == e;
    ParseEntriesRoundTrip(Pairs(Elements(faqs), esc));
  }
}
