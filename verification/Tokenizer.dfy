/** Splitting the text of a batch into lines. */
module Tokenizer {
  import opened Wrappers
  import opened TextFiles

  /** What C sees of a buffer: everything before the first NUL. */
  function CString(s: Text): Text {
    if |s| == 0 || s[0] == NUL then [] else [s[0]] + CString(s[1..])
  }

  ghost predicate NulFree(s: Text) {
    NUL !in s
  }

  /** The longest prefix without NUL. */
  lemma {:induction false} CStringWhole(s: Text)
    ensures CString(s) <= s && NulFree(CString(s))
    ensures |CString(s)| < |s| ==> s[|CString(s)|] == NUL
    ensures CString(s) == s <==> NulFree(s)
  {
    if |s| == 0 || s[0] == NUL {
    } else {
      CStringWhole(s[1..]);
      assert s == [s[0]] + s[1..];
    }
  }

  /** `strstr(s, "\n") - s`, or `strlen(s)` when there is none. */
  function TokenLength(s: Text): (n: nat)
    ensures n <= |s|
  {
    if |s| == 0 || s[0] == NEWLINE then 0 else 1 + TokenLength(s[1..])
  }

  function Token(s: Text): Text {
    s[..TokenLength(s)]
  }

  /** Where the cursor goes: past the newline, or to NULL at the end of the string. */
  function Rest(s: Text): (r: Option<Text>)
    ensures r.Some? ==> |r.value| < |s|
  {
    if TokenLength(s) < |s| then Some(s[TokenLength(s) + 1..]) else None
  }

  /** The length is the position of the first newline, or that of the end. */
  lemma {:induction false} TokenEnd(s: Text)
    ensures forall i :: 0 <= i < TokenLength(s) ==> s[i] != NEWLINE
    ensures TokenLength(s) < |s| ==> s[TokenLength(s)] == NEWLINE
  {
    if |s| == 0 || s[0] == NEWLINE {
    } else {
      TokenEnd(s[1..]);
      forall i | 0 <= i < TokenLength(s) ensures s[i] != NEWLINE {
        if i > 0 { assert s[i] == s[1..][i - 1]; }
      }
    }
  }

  lemma TokenIsFirstLine(s: Text)
    ensures NEWLINE !in Token(s)
    ensures Rest(s) == None ==> Token(s) == s
    ensures Rest(s).Some? ==> s == Token(s) + [NEWLINE] + Rest(s).value
  {
    var n := TokenLength(s);
    TokenEnd(s);
    hide TokenLength;
    if n < |s| {
      assert s == s[..n] + [s[n]] + s[n + 1..];
    }
  }

  /** `tokenize`, on a cursor that is NULL or a C string. */
  method Tokenize(cursor: Option<Text>) returns (token: Option<Text>, next: Option<Text>)
    ensures cursor == None ==> token == None && next == None
    ensures cursor.Some? ==> token == Some(Token(cursor.value)) && next == Rest(cursor.value)
  {
    if cursor == None {
      return None, None;
    }
    var str := cursor.value;
    var tokenLength := 0;
    while tokenLength < |str| && str[tokenLength] != NEWLINE
      invariant 0 <= tokenLength <= |str|
      invariant TokenLength(str) == tokenLength + TokenLength(str[tokenLength..])
    {
      assert str[tokenLength..][1..] == str[tokenLength + 1..];
      tokenLength := tokenLength + 1;
    }
    var found := tokenLength < |str|;
    token := Some(str[..tokenLength]);
    next := if found then Some(str[tokenLength + 1..]) else None;
  }

  function Tokens(s: Text): seq<Text>
    decreases |s|
  {
    match Rest(s)
    case None => [Token(s)]
    case Some(r) => [Token(s)] + Tokens(r)
  }

  function Join(tokens: seq<Text>): Text {
    if |tokens| == 0 then []
    else if |tokens| == 1 then tokens[0]
    else tokens[0] + [NEWLINE] + Join(tokens[1..])
  }

  function CountNewlines(s: Text): nat {
    if |s| == 0 then 0 else (if s[0] == NEWLINE then 1 else 0) + CountNewlines(s[1..])
  }

  lemma {:induction false} CountAppend(a: Text, b: Text)
    ensures CountNewlines(a + b) == CountNewlines(a) + CountNewlines(b)
  {
    if |a| == 0 {
      assert a + b == b;
    } else {
      CountAppend(a[1..], b);
      assert (a + b)[1..] == a[1..] + b;
    }
  }

  lemma {:induction false} CountNone(s: Text)
    requires NEWLINE !in s
    ensures CountNewlines(s) == 0
  {
    if |s| == 0 {
    } else {
      CountNone(s[1..]);
    }
  }

  lemma TokensStep(s: Text)
    ensures Rest(s) == None ==> Tokens(s) == [Token(s)]
    ensures Rest(s).Some? ==> Tokens(s) == [Token(s)] + Tokens(Rest(s).value) && |Tokens(s)| > 1
  {
  }

  lemma JoinStep(token: Text, tokens: seq<Text>)
    ensures Join([token] + tokens) == if |tokens| == 0 then token else token + [NEWLINE] + Join(tokens)
  {
    assert ([token] + tokens)[1..] == tokens;
  }

  lemma CountLine(token: Text, r: Text)
    requires NEWLINE !in token
    ensures CountNewlines(token) == 0 && CountNewlines(token + [NEWLINE] + r) == CountNewlines(r) + 1
  {
    CountNone(token);
    CountAppend(token, [NEWLINE] + r);
    assert token + [NEWLINE] + r == token + ([NEWLINE] + r);
    assert ([NEWLINE] + r)[1..] == r;
  }

  lemma RestShorter(s: Text)
    ensures Rest(s).Some? ==> |Rest(s).value| < |s|
  {
  }

  /** Tokens and text determine each other: one token more than newlines, none contains a newline,
      and joining them with newlines gives the text back. */
  lemma {:induction false} TokensRoundTrip(s: Text)
    ensures |Tokens(s)| == CountNewlines(s) + 1
    ensures forall j :: 0 <= j < |Tokens(s)| ==> NEWLINE !in Tokens(s)[j]
    ensures Join(Tokens(s)) == s
    decreases |s|
  {
    hide *;
    TokenIsFirstLine(s);
    TokensStep(s);
    if Rest(s) == None {
      CountLine(s, []);
      JoinStep(s, []);
      assert [s] + [] == [s];
    } else {
      var r := Rest(s).value;
      RestShorter(s);
      TokensRoundTrip(r);
      CountLine(Token(s), r);
      JoinStep(Token(s), Tokens(r));
    }
  }

  lemma {:induction false} NoNewline(s: Text)
    requires NEWLINE !in s
    ensures TokenLength(s) == |s|
  {
    if |s| == 0 {
    } else {
      NoNewline(s[1..]);
    }
  }

  lemma {:induction false} FirstNewline(body: Text, rest: Text)
    requires NEWLINE !in body
    ensures TokenLength(body + [NEWLINE] + rest) == |body|
  {
    var s := body + [NEWLINE] + rest;
    if |body| == 0 {
    } else {
      assert s[0] == body[0] && body[0] in body;
      assert s[1..] == body[1..] + [NEWLINE] + rest;
      FirstNewline(body[1..], rest);
    }
  }

  /** Conversely, any newline-free lines come back from their join. */
  lemma {:induction false} JoinThenTokens(lines: seq<Text>)
    requires |lines| > 0 && forall j :: 0 <= j < |lines| ==> NEWLINE !in lines[j]
    ensures Tokens(Join(lines)) == lines
  {
    if |lines| == 1 {
      NoNewline(lines[0]);
      assert Token(lines[0]) == lines[0] && Rest(lines[0]) == None;
      assert lines == [lines[0]];
    } else {
      JoinThenTokens(lines[1..]);
      FirstNewline(lines[0], Join(lines[1..]));
      assert Join(lines) == lines[0] + [NEWLINE] + Join(lines[1..]);
      assert Token(Join(lines)) == lines[0] && Rest(Join(lines)) == Some(Join(lines[1..]));
      assert lines == [lines[0]] + lines[1..];
    }
  }

  /** The loop `while ((line = tokenize(&lookupcpy, "\n")))` over a buffer. Joining what it yields
      gives the buffer back exactly when the buffer contains no NUL. */
  method TokenizeAll(buffer: Text) returns (lines: seq<Text>)
    ensures lines == Tokens(CString(buffer))
    ensures Join(lines) == buffer <==> NulFree(buffer)
  {
    var cursor := Some(CString(buffer));
    lines := [];
    var line;
    line, cursor := Tokenize(cursor);
    while line != None
      invariant line != None ==>
                  Tokens(CString(buffer)) == lines + [line.value] + if cursor.Some? then Tokens(cursor.value) else []
      invariant line == None ==> Tokens(CString(buffer)) == lines && cursor == None
      decreases line != None, if cursor.Some? then |cursor.value| + 1 else 0
    {
      lines := lines + [line.value];
      line, cursor := Tokenize(cursor);
    }
    TokensRoundTrip(CString(buffer));
    CStringWhole(buffer);
  }

  // ---- tokens of a run of lines ----

  function LineText(line: Text): Text
    requires |line| > 0
  {
    line[..|line| - 1]
  }

  /** A line as the matcher sees it: without its newline, and cut at its first NUL. */
  function SeenText(line: Text): Text
    requires |line| > 0
  {
    CString(LineText(line))
  }

  lemma {:induction false} CStringAppend(a: Text, b: Text)
    ensures CString(a + b) == if NulFree(a) then a + CString(b) else CString(a)
  {
    if |a| == 0 {
      assert a + b == b;
    } else if a[0] != NUL {
      CStringAppend(a[1..], b);
      assert (a + b)[1..] == a[1..] + b;
      assert NulFree(a) <==> NulFree(a[1..]) by { assert a == [a[0]] + a[1..]; }
    }
  }

  lemma {:induction false} CStringNoNewline(s: Text)
    requires NEWLINE !in s
    ensures NEWLINE !in CString(s)
  {
    if |s| == 0 {
    } else {
      CStringNoNewline(s[1..]);
    }
  }

  lemma TokenOfText(body: Text, rest: Text)
    requires NEWLINE !in body
    ensures var s := CString(body + ([NEWLINE] + rest));
            Token(s) == CString(body) && Rest(s) == if NulFree(body) then Some(CString(rest)) else None
  {
    CStringAppend(body, [NEWLINE] + rest);
    CStringWhole(body);
    CStringNoNewline(body);
    if NulFree(body) {
      CStringAppend([NEWLINE], rest);
      assert CString([NEWLINE] + rest) == [NEWLINE] + CString(rest);
      assert body + ([NEWLINE] + CString(rest)) == body + [NEWLINE] + CString(rest);
      FirstNewline(body, CString(rest));
    } else {
      NoNewline(CString(body));
    }
  }

  /** On a run of complete lines the token is the first line as the matcher sees it. If that line
      has a NUL, the string ends there and the lines after it are never seen. */
  lemma TokenOfLines(lines: seq<Text>, k: nat, stop: nat)
    requires k < stop <= |lines| && IsLine(lines[k])
    ensures var s := CString(Concat(lines[k..stop]));
            && Token(s) == SeenText(lines[k])
            && Rest(s) == if NulFree(lines[k]) then Some(CString(Concat(lines[k + 1..stop]))) else None
  {
    var body, rest := LineText(lines[k]), Concat(lines[k + 1..stop]);
    assert lines[k..stop] == [lines[k]] + lines[k + 1..stop];
    ConcatAppend([lines[k]], lines[k + 1..stop]);
    assert [lines[k]] == [] + [lines[k]];
    ConcatSnoc([], lines[k]);
    assert lines[k] == body + [NEWLINE];
    assert Concat(lines[k..stop]) == body + ([NEWLINE] + rest);
    TokenOfText(body, rest);
  }
}
