/** The plugin's side of its one OpenAI call: shaping generated Markdown into
    post HTML (`aiseo_process_content`), choosing between the reprocess prompt
    and the new-post prompt, and unwrapping the chat-completion reply into the
    generated arguments object, with its four error exits.

    The HTTP request itself is a parameter: the caller passes the transport
    result, either the response body or the transport error message. */
module OpenAi {
  import opened Wrappers
  import opened Text
  import opened Json

  // ---------------------------------------------------------------------
  // h1 -> h2 demotion: a lazy, case-insensitive, single-line tag rewrite
  // ---------------------------------------------------------------------

  /** The pattern's only letter is `h`, so the `i` flag only lets `H` match too. */
  predicate IsH(c: char) {
    c == 'h' || c == 'H'
  }

  /** An opening `<h1>` tag without attributes at position `i`. */
  predicate OpenAt(s: string, i: nat) {
    i + 4 <= |s| && s[i] == '<' && IsH(s[i + 1]) && s[i + 2] == '1' && s[i + 3] == '>'
  }

  /** A closing `</h1>` tag at position `i`. */
  predicate CloseAt(s: string, i: nat) {
    i + 5 <= |s| && s[i] == '<' && s[i + 1] == '/' && IsH(s[i + 2]) && s[i + 3] == '1' && s[i + 4] == '>'
  }

  /** The lazy `(.*?)<\/h1>` from position `j`: the first closing tag at or
      after `j`, provided no line feed comes before it (`.` matches anything
      but a line feed). */
  function FindClose(s: string, j: nat): (r: Option<nat>)
    ensures r.Some? ==> j <= r.value && CloseAt(s, r.value)
    ensures r.Some? ==> forall k :: j <= k < r.value ==> s[k] != '\n' && !CloseAt(s, k)
    ensures r.None? ==> forall k :: j <= k && CloseAt(s, k) ==> exists m :: j <= m < k && s[m] == '\n'
    decreases |s| - j
  {
    if j >= |s| then None
    else if CloseAt(s, j) then Some(j)
    else if s[j] == '\n' then None
    else FindClose(s, j + 1)
  }

  /** Position `i` holds the digit of an `h1` tag of `s`. */
  predicate TagDigitAt(s: string, i: nat) {
    (i >= 2 && OpenAt(s, i - 2)) || (i >= 3 && CloseAt(s, i - 3))
  }

  /** Position `i` holds the letter of an `h1` tag of `s`. */
  predicate TagLetterAt(s: string, i: nat) {
    (i >= 1 && OpenAt(s, i - 1)) || (i >= 2 && CloseAt(s, i - 2))
  }

  /** `r` is `s` with at most some `h1` tag characters rewritten: the length
      is kept and every changed position lies in an `<h1>` or `</h1>` tag of
      `s`, where a `1` becomes `2` or an `H` is written as `h`. */
  predicate OnlyTagChanges(s: string, r: string) {
    |r| == |s| &&
    forall i :: 0 <= i < |s| && r[i] != s[i] ==>
      (s[i] == '1' && r[i] == '2' && TagDigitAt(s, i)) || (s[i] == 'H' && r[i] == 'h' && TagLetterAt(s, i))
  }

  /** Every single-line `<h1>…</h1>` element, scanned left to right and
      matched as short as possible, becomes `<h2>…</h2>`; nothing but the
      characters of `h1` tags changes. */
  function DemoteH1(s: string): (r: string)
    ensures OnlyTagChanges(s, r)
    decreases |s|
  {
    if s == [] then []
    else if OpenAt(s, 0) && FindClose(s, 4).Some? then
      var j := FindClose(s, 4).value;
      var rest := DemoteH1(s[j + 5..]);
      DemoteSplice(s, j, rest);
      "<h2>" + s[4..j] + "</h2>" + rest
    else
      var rest := DemoteH1(s[1..]);
      DemoteShift(s, rest);
      [s[0]] + rest
  }

  /** Tags found in a suffix of `s` are tags of `s`, shifted. */
  lemma TagShift(s: string, d: nat, m: nat)
    requires d <= |s|
    ensures OpenAt(s[d..], m) <==> OpenAt(s, d + m)
    ensures CloseAt(s[d..], m) <==> CloseAt(s, d + m)
    ensures TagDigitAt(s[d..], m) ==> TagDigitAt(s, d + m)
    ensures TagLetterAt(s[d..], m) ==> TagLetterAt(s, d + m)
  {
    if m >= 1 {
      TagShiftAt(s, d, m - 1);
    }
    if m >= 2 {
      TagShiftAt(s, d, m - 2);
    }
    if m >= 3 {
      TagShiftAt(s, d, m - 3);
    }
    TagShiftAt(s, d, m);
  }

  lemma TagShiftAt(s: string, d: nat, m: nat)
    requires d <= |s|
    ensures OpenAt(s[d..], m) <==> OpenAt(s, d + m)
    ensures CloseAt(s[d..], m) <==> CloseAt(s, d + m)
  {
    var t := s[d..];
    if d + m + 4 <= |s| {
      assert t[m] == s[d + m] && t[m + 1] == s[d + m + 1];
      assert t[m + 2] == s[d + m + 2] && t[m + 3] == s[d + m + 3];
    }
    if d + m + 5 <= |s| {
      assert t[m + 4] == s[d + m + 4];
    }
  }

  /** A closing tag that ends inside `u` is a closing tag of `u + v` and
      the other way round. */
  lemma ClosePrefix(u: string, v: string, k: nat)
    requires k + 5 <= |u|
    ensures CloseAt(u + v, k) <==> CloseAt(u, k)
  {
    var s := u + v;
    assert s[k] == u[k] && s[k + 1] == u[k + 1] && s[k + 2] == u[k + 2];
    assert s[k + 3] == u[k + 3] && s[k + 4] == u[k + 4];
  }

  /** Replacing a whole element's tags by `h2` tags changes tag characters only. */
  lemma DemoteSplice(s: string, j: nat, rest: string)
    requires OpenAt(s, 0) && 4 <= j && CloseAt(s, j)
    requires OnlyTagChanges(s[j + 5..], rest)
    ensures OnlyTagChanges(s, "<h2>" + s[4..j] + "</h2>" + rest)
  {
    var r := "<h2>" + s[4..j] + "</h2>" + rest;
    var t := s[j + 5..];
    forall i | 0 <= i < |s|
      ensures r[i] != s[i] ==>
        (s[i] == '1' && r[i] == '2' && TagDigitAt(s, i)) || (s[i] == 'H' && r[i] == 'h' && TagLetterAt(s, i))
    {
      if i < 4 {
        assert TagDigitAt(s, 2) && TagLetterAt(s, 1);
      } else if i < j {
        assert r[i] == s[i];
      } else if i < j + 5 {
        assert TagDigitAt(s, j + 3) && TagLetterAt(s, j + 2);
      } else {
        assert r[i] == rest[i - j - 5] && s[i] == t[i - j - 5];
        TagShift(s, j + 5, i - j - 5);
      }
    }
  }

  lemma DemoteShift(s: string, rest: string)
    requires s != [] && OnlyTagChanges(s[1..], rest)
    ensures OnlyTagChanges(s, [s[0]] + rest)
  {
    var r := [s[0]] + rest;
    forall i | 0 < i < |s|
      ensures r[i] != s[i] ==>
        (s[i] == '1' && r[i] == '2' && TagDigitAt(s, i)) || (s[i] == 'H' && r[i] == 'h' && TagLetterAt(s, i))
    {
      assert r[i] == rest[i - 1] && s[i] == s[1..][i - 1];
      TagShift(s, 1, i - 1);
    }
  }

  /** A whole heading element is demoted, its text kept, and the scan goes on
      after its closing tag. The text may hold any markup except a line feed
      or a closing `</h1>` tag, which would end the lazy match earlier. */
  lemma DemoteWholeTag(open: string, x: string, close: string, rest: string)
    requires open == "<h1>" || open == "<H1>"
    requires close == "</h1>" || close == "</H1>"
    requires forall k :: 0 <= k < |x| ==> x[k] != '\n' && !CloseAt(x + close, k)
    ensures DemoteH1(open + x + close + rest) == "<h2>" + x + "</h2>" + DemoteH1(rest)
  {
    var head := open + x + close;
    var s := head + rest;
    var j := 4 + |x|;
    PrefixThen(head, rest);
    assert head[4..] == x + close;
    assert head[4..j] == x;
    assert s[4..j] == head[4..j];
    assert CloseAt(head, j);
    ClosePrefix(head, rest, j);
    assert OpenAt(s, 0);
    forall k | 4 <= k < j
      ensures s[k] != '\n' && !CloseAt(s, k)
    {
      assert s[k] == x[k - 4];
      ClosePrefix(head, rest, k);
      TagShiftAt(head, 4, k - 4);
    }
    assert FindClose(s, 4) == Some(j) by {
      FindCloseFirst(s, 4, j);
    }
  }

  /** Inline markup inside a heading is kept while the heading is demoted:
      `<h1>a<em>b</em></h1>` becomes `<h2>a<em>b</em></h2>` for any plain
      text `a` and `b`. */
  lemma DemoteKeepsMarkup(a: string, b: string, rest: string)
    requires forall k :: 0 <= k < |a| ==> a[k] != '<' && a[k] != '\n'
    requires forall k :: 0 <= k < |b| ==> b[k] != '<' && b[k] != '\n'
    ensures var x := a + "<em>" + b + "</em>";
      DemoteH1("<h1>" + x + "</h1>" + rest) == "<h2>" + x + "</h2>" + DemoteH1(rest)
  {
    EmphasisHasNoClose(a, b);
    DemoteWholeTag("<h1>", a + "<em>" + b + "</em>", "</h1>", rest);
  }

  /** An emphasis element inside plain text holds no line feed and starts
      no closing `</h1>` tag. */
  lemma EmphasisHasNoClose(a: string, b: string)
    requires forall k :: 0 <= k < |a| ==> a[k] != '<' && a[k] != '\n'
    requires forall k :: 0 <= k < |b| ==> b[k] != '<' && b[k] != '\n'
    ensures var x := a + "<em>" + b + "</em>";
      forall k :: 0 <= k < |x| ==> x[k] != '\n' && !CloseAt(x + "</h1>", k)
  {
    var x := a + "<em>" + b + "</em>";
    var u := x + "</h1>";
    var m := |a| + 4 + |b|;
    forall k | 0 <= k < |x|
      ensures x[k] != '\n' && !CloseAt(u, k)
    {
      assert u[k] == x[k];
      if k < |a| {
        assert x[k] == a[k];
      } else if k < |a| + 4 {
        assert x[k] == "<em>"[k - |a|];
        assert k == |a| ==> u[k + 1] == 'e';
      } else if k < m {
        assert x[k] == b[k - |a| - 4];
      } else {
        assert x[k] == "</em>"[k - m];
        assert k == m ==> u[k + 2] == 'e';
      }
    }
  }

  /** The lazy match stops at the first closing tag when no line feed comes
      before it. */
  lemma {:induction false} FindCloseFirst(s: string, j: nat, c: nat)
    requires j <= c && CloseAt(s, c)
    requires forall k :: j <= k < c ==> s[k] != '\n' && !CloseAt(s, k)
    ensures FindClose(s, j) == Some(c)
    decreases c - j
  {
    if j < c {
      FindCloseFirst(s, j + 1, c);
    }
  }

  /** Text without any `<h1>` opening tag comes through unchanged. */
  lemma {:induction false} DemoteWithoutOpener(s: string)
    requires forall i :: 0 <= i < |s| ==> !OpenAt(s, i)
    ensures DemoteH1(s) == s
    decreases |s|
  {
    if s != [] {
      assert !OpenAt(s, 0);
      forall i | 0 <= i < |s[1..]|
        ensures !OpenAt(s[1..], i)
      {
        assert !OpenAt(s, i + 1);
      }
      DemoteWithoutOpener(s[1..]);
      assert [s[0]] + s[1..] == s;
    }
  }

  /** An `<h1>` opener at `i` whose lazy match finds its closer: the only
      places the pattern matches. */
  predicate MatchAt(s: string, i: nat) {
    OpenAt(s, i) && FindClose(s, i + 4).Some?
  }

  /** Text in which no match starts is copied through, and the scan carries
      on after it unchanged. This covers openers with no closer before the
      next line feed: they stay as they are. */
  lemma {:induction false} DemoteAfterPlainText(p: string, t: string)
    requires forall k :: 0 <= k < |p| ==> !MatchAt(p + t, k)
    ensures DemoteH1(p + t) == p + DemoteH1(t)
    decreases |p|
  {
    if p == [] {
      assert p + t == t && p + DemoteH1(t) == DemoteH1(t);
    } else {
      NoOpenerShift(p, t);
      DemoteCopies(p + t);
      assert (p + t)[0] == p[0] && (p + t)[1..] == p[1..] + t;
      DemoteAfterPlainText(p[1..], t);
      HeadThenRest(p, DemoteH1(t));
    }
  }

  lemma HeadThenRest(p: string, u: string)
    requires p != []
    ensures [p[0]] + (p[1..] + u) == p + u
  {
    assert p == [p[0]] + p[1..];
  }

  /** A character that starts no match is copied, and the scan moves on. */
  lemma DemoteCopies(s: string)
    requires s != [] && !MatchAt(s, 0)
    ensures DemoteH1(s) == [s[0]] + DemoteH1(s[1..])
  {
  }

  lemma NoOpenerShift(p: string, t: string)
    requires p != []
    requires forall k :: 0 <= k < |p| ==> !MatchAt(p + t, k)
    ensures !MatchAt(p + t, 0)
    ensures forall k :: 0 <= k < |p[1..]| ==> !MatchAt(p[1..] + t, k)
  {
    var s := p + t;
    assert !MatchAt(s, 0);
    assert s[1..] == p[1..] + t;
    forall k | 0 <= k < |p[1..]|
      ensures !MatchAt(p[1..] + t, k)
    {
      MatchShift(s, 1, k);
      assert !MatchAt(s, k + 1);
    }
  }

  /** A match seen in a suffix of the text is a match of the whole text at
      the shifted position, and the other way round. */
  lemma MatchShift(s: string, d: nat, m: nat)
    requires d <= |s|
    ensures MatchAt(s[d..], m) <==> MatchAt(s, d + m)
  {
    TagShift(s, d, m);
    FindCloseShift(s, d, m + 4);
  }

  /** The lazy closer search finds a closer in a suffix exactly when it finds
      one in the whole text from the shifted position. */
  lemma {:induction false} FindCloseShift(s: string, d: nat, j: nat)
    requires d <= |s|
    ensures FindClose(s[d..], j).Some? <==> FindClose(s, d + j).Some?
    decreases |s| - d - j
  {
    var u := s[d..];
    if j < |u| {
      TagShift(s, d, j);
      assert u[j] == s[d + j];
      if !CloseAt(u, j) && u[j] != '\n' {
        FindCloseShift(s, d, j + 1);
      }
    }
  }

  /** Text where no opener finds its closer before a line feed is left
      exactly as it is. */
  lemma DemoteWithoutMatch(s: string)
    requires forall i :: 0 <= i < |s| ==> !MatchAt(s, i)
    ensures DemoteH1(s) == s
  {
    assert s + [] == s;
    DemoteAfterPlainText(s, []);
  }

  /** A heading whose text breaks the line before its closer is no match:
      `<h1>a` line feed `b</h1>` is left unchanged. */
  lemma UnclosedLineKept(a: string, b: string)
    requires forall k :: 0 <= k < |a| ==> a[k] != '<'
    requires forall k :: 0 <= k < |b| ==> b[k] != '<'
    ensures DemoteH1("<h1>" + a + "\n" + b + "</h1>") == "<h1>" + a + "\n" + b + "</h1>"
  {
    var s := "<h1>" + a + "\n" + b + "</h1>";
    forall i | 0 <= i < |s|
      ensures !MatchAt(s, i)
    {
      UnclosedNoMatch(a, b, i);
    }
    DemoteWithoutMatch(s);
  }

  lemma UnclosedNoMatch(a: string, b: string, i: nat)
    requires forall k :: 0 <= k < |a| ==> a[k] != '<'
    requires forall k :: 0 <= k < |b| ==> b[k] != '<'
    ensures !MatchAt("<h1>" + a + "\n" + b + "</h1>", i)
  {
    var s := "<h1>" + a + "\n" + b + "</h1>";
    var n := 4 + |a|;
    var c := n + 1 + |b|;
    assert |s| == c + 5;
    assert s[n] == '\n';
    assert forall k :: 4 <= k < n ==> s[k] == a[k - 4];
    assert forall k :: n < k < c ==> s[k] == b[k - n - 1];
    assert s[c + 1] == '/';
    if i == 0 {
      LineFeedStopsClose(s, 4, n);
    }
  }

  /** A line feed reached before any `<` ends the search without a closer. */
  lemma LineFeedStopsClose(s: string, j: nat, n: nat)
    requires j <= n < |s| && s[n] == '\n'
    requires forall k :: j <= k < n ==> s[k] != '<'
    ensures FindClose(s, j).None?
  {
  }

  /** Every heading is demoted, wherever it sits: after any text holding no
      `<h1>` opener, `<h1>X</h1>` becomes `<h2>X</h2>` and the text before
      it is kept. */
  lemma DemoteHeadingAfterText(p: string, open: string, x: string, close: string, rest: string)
    requires forall k :: 0 <= k < |p| ==> !OpenAt(p, k)
    requires open == "<h1>" || open == "<H1>"
    requires close == "</h1>" || close == "</H1>"
    requires forall k :: 0 <= k < |x| ==> x[k] != '\n' && !CloseAt(x + close, k)
    ensures DemoteH1(p + open + x + close + rest) == p + "<h2>" + x + "</h2>" + DemoteH1(rest)
  {
    var t := open + x + close + rest;
    Regroup(p, open, x, close, rest);
    NoOpenerBeforeTag(p, t);
    DemoteAfterPlainText(p, t);
    DemoteWholeTag(open, x, close, rest);
    Regroup(p, "<h2>", x, "</h2>", DemoteH1(rest));
  }

  lemma Regroup(p: string, a: string, b: string, c: string, d: string)
    ensures p + a + b + c + d == p + (a + b + c + d)
  {
  }

  lemma NoOpenerBeforeTag(p: string, t: string)
    requires forall i :: 0 <= i < |p| ==> !OpenAt(p, i)
    requires t != [] && t[0] == '<'
    ensures forall k :: 0 <= k < |p| ==> !OpenAt(p + t, k)
  {
    forall k | 0 <= k < |p|
      ensures !OpenAt(p + t, k)
    {
      OpenerBeforeTag(p, t, k);
    }
  }

  /** An opener starting in `p` and running into a following `<` would need
      that `<` to be one of its last three characters, which none is. */
  lemma OpenerBeforeTag(p: string, t: string, k: nat)
    requires forall i :: 0 <= i < |p| ==> !OpenAt(p, i)
    requires t != [] && t[0] == '<'
    requires k < |p|
    ensures !OpenAt(p + t, k)
  {
    var s := p + t;
    assert s[|p|] == '<';
    if k + 4 <= |p| {
      assert !OpenAt(p, k);
      assert s[k..k + 4] == p[k..k + 4];
    }
  }

  /** `aiseo_process_content`: Markdown rendered by Parsedown (here the
      parameter `markdown`), then demoted. */
  function ProcessContent(markdown: string -> string, content: string): string
  {
    DemoteH1(markdown(content))
  }

  // ---------------------------------------------------------------------
  // prompt selection
  // ---------------------------------------------------------------------

  const KeywordPrefix := "Additionally, try to naturally incorporate some of the following keywords into the content, if relevant: "

  /** The sentence asking the model to weave in the batch's keywords. */
  function KeywordInstruction(all: seq<string>): string
  {
    KeywordPrefix + Join(all, ", ")
  }

  /** The prompt's variable parts; the fixed wording around them is not modelled. */
  datatype Prompt =
    | ReprocessPrompt(content: string, additionalPrompt: string, instruction: string)
    | NewPostPrompt(keyword: string, postLength: string, context: string, toneStyle: string, instruction: string)

  /** The reprocess prompt for an array argument with a `content` entry, the
      new-post prompt (with the argument interpolated as a string) otherwise. */
  function SelectPrompt(keyword: Value, postLength: string, context: string, toneStyle: string, all: seq<string>): (p: Prompt)
    ensures p.ReprocessPrompt? <==> IsArray(keyword) && IsSet(keyword, "content")
    ensures p.instruction == KeywordInstruction(all)
  {
    var instruction := KeywordInstruction(all);
    if IsArray(keyword) && IsSet(keyword, "content") then
      ReprocessPrompt(ToText(Get(keyword, "content")), ToText(Get(keyword, "additional_prompt")), instruction)
    else
      NewPostPrompt(ToText(keyword), postLength, context, toneStyle, instruction)
  }

  /** The argument the reprocessor builds always selects the reprocess prompt,
      carrying its content and extra instructions. */
  lemma ReprocessArgumentSelectsReprocess(content: string, additional: string, all: seq<string>)
    ensures SelectPrompt(Obj([Member("content", Str(content)), Member("additional_prompt", Str(additional))]), "", "", "", all)
            == ReprocessPrompt(content, additional, KeywordInstruction(all))
  {
    var arg := Obj([Member("content", Str(content)), Member("additional_prompt", Str(additional))]);
    assert Get(arg, "additional_prompt") == Str(additional);
    assert arg.members[..1] == [Member("content", Str(content))];
    assert Get(arg, "content") == LastValue([Member("content", Str(content))], "content") == Str(content);
  }

  /** A queue item's keyword string always selects the new-post prompt for it. */
  lemma KeywordSelectsNewPost(keyword: string, postLength: string, context: string, toneStyle: string, all: seq<string>)
    ensures SelectPrompt(Str(keyword), postLength, context, toneStyle, all)
            == NewPostPrompt(keyword, postLength, context, toneStyle, KeywordInstruction(all))
  {
  }

  /** Every batch keyword appears in the keyword instruction. */
  lemma InstructionMentionsKeyword(all: seq<string>, i: nat)
    requires i < |all|
    ensures Contains(KeywordInstruction(all), all[i])
  {
    JoinContainsEach(all, ", ", i);
    ContainsAppendRight(KeywordPrefix, Join(all, ", "), all[i]);
  }

  // ---------------------------------------------------------------------
  // unwrapping the reply
  // ---------------------------------------------------------------------

  datatype ApiError =
    | TransportError(detail: string)
    | BodyNotJson
    | MissingArguments
    | ArgumentsNotJson

  /** The message of the exception each error exit throws. JSON decoding
      errors are all reported as PHP's syntax error. */
  function ErrorMessage(e: ApiError): string
  {
    match e
    case TransportError(d) => "Error sending request to OpenAI API: " + d
    case BodyNotJson => "Error decoding JSON from OpenAI response: Syntax error"
    case MissingArguments => "Invalid response format from OpenAI"
    case ArgumentsNotJson => "Error decoding JSON from OpenAI content: Syntax error"
  }

  const ArgumentsPath: seq<string> := ["choices", "0", "message", "function_call", "arguments"]

  /** The reply's `choices[0].message.function_call.arguments`, decoded and
      encoded again; each failed step is its own error. */
  function Unwrap(transport: Result<string, string>): (r: Result<string, ApiError>)
    ensures transport.Failure? ==> r == Failure(TransportError(transport.error))
    ensures transport.Success? && Decode(transport.value).None? ==> r == Failure(BodyNotJson)
    ensures r == Failure(MissingArguments) <==>
              transport.Success? && Decode(transport.value).Some? && GetPath(Decode(transport.value).value, ArgumentsPath) == Null
    ensures transport.Success? && Decode(transport.value).Some? ==>
              var args := GetPath(Decode(transport.value).value, ArgumentsPath);
              (args != Null && Decode(ToText(args)).None? ==> r == Failure(ArgumentsNotJson)) &&
              (args != Null && Decode(ToText(args)).Some? ==> r.Success?)
    ensures r.Success? ==> transport.Success? && Decode(transport.value).Some?
    ensures r.Success? ==> GetPath(Decode(transport.value).value, ArgumentsPath) != Null
    ensures r.Success? ==> Decode(r.value) == Decode(ToText(GetPath(Decode(transport.value).value, ArgumentsPath)))
  {
    match transport
    case Failure(d) => Failure(TransportError(d))
    case Success(body) =>
      match Decode(body)
      case None => Failure(BodyNotJson)
      case Some(result) =>
        var args := GetPath(result, ArgumentsPath);
        if args == Null then Failure(MissingArguments)
        else
          match Decode(ToText(args))
          case None => Failure(ArgumentsNotJson)
          case Some(content) =>
            DecodeEncode(content);
            Success(Encode(content))
  }

  /** A chat-completion reply carrying `args` as its function-call arguments. */
  function Envelope(args: string): Value
  {
    Obj([Member("choices", Arr([Obj([Member("message", Obj([Member("function_call",
      Obj([Member("arguments", Str(args))]))]))])]))])
  }

  /** Following the arguments path through an envelope reaches its arguments. */
  lemma EnvelopeArguments(args: string)
    ensures GetPath(Envelope(args), ArgumentsPath) == Str(args)
  {
    var call := Obj([Member("arguments", Str(args))]);
    var message := Obj([Member("function_call", call)]);
    var choice := Obj([Member("message", message)]);
    var choices := Arr([choice]);
    assert Get(Envelope(args), "choices") == choices;
    assert DigitsValue("0") == 0 && IsIndexKey("0");
    assert Get(choices, "0") == choice;
    assert Get(choice, "message") == message;
    assert Get(message, "function_call") == call;
    assert Get(call, "arguments") == Str(args);
    var path := ArgumentsPath;
    assert path[1..][1..][1..][1..][1..] == [];
  }

  /** A well-formed reply yields exactly the generated object it carries. */
  lemma UnwrapEnvelope(content: Value)
    ensures Unwrap(Success(Encode(Envelope(Encode(content))))) == Success(Encode(content))
  {
    var args := Encode(content);
    DecodeEncode(Envelope(args));
    EnvelopeArguments(args);
    assert ToText(Str(args)) == args;
    DecodeEncode(content);
  }

  /** A reply whose arguments are not JSON takes the fourth exit. */
  lemma UnwrapBadArguments(args: string)
    requires Decode(args).None?
    ensures Unwrap(Success(Encode(Envelope(args)))) == Failure(ArgumentsNotJson)
  {
    DecodeEncode(Envelope(args));
    EnvelopeArguments(args);
    assert ToText(Str(args)) == args;
  }

  /** `json_decode(aiseo_openai_request(...), true)` as the callers see it:
      the generated object, or the message of the exception thrown. */
  function RequestContent(transport: Result<string, string>): (r: Result<Value, string>)
    ensures r.Success? ==> transport.Success? && Decode(transport.value).Some?
    ensures r.Success? ==> Some(r.value) == Decode(ToText(GetPath(Decode(transport.value).value, ArgumentsPath)))
    ensures r.Failure? ==> Unwrap(transport).Failure? && r.error == ErrorMessage(Unwrap(transport).error)
  {
    match Unwrap(transport)
    case Failure(e) => Failure(ErrorMessage(e))
    case Success(text) =>
      match Decode(text)
      case Some(content) => Success(content)
      case None => assert false; Success(Null)
  }
}
