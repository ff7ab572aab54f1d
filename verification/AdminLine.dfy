/**
 The admin command line: adminctl joins and quotes its arguments (tools/adminctl/adminctl_main.cpp), the server receives a
 line (server/admin/admin_service.cpp) and splits it again (server/admin/admin_command.cpp).
 */
module AdminLine {
  import opened Prelude

  const MAX_TOKENS := 16
  const MAX_REQUEST := 4096

  predicate Blank(c: char) {
    c == ' ' || c == '\t' || c == '\r'
  }

  // ---------------------------------------------------------------------------------------------
  // The sender

  predicate NeedsQuotes(a: string) {
    ' ' in a || '\t' in a
  }

  function Quote(a: string): string {
    if NeedsQuotes(a) then "\"" + a + "\"" else a
  }

  /** The arguments that follow, with a space before each one once something has been written. */
  function Joined(args: seq<string>, started: bool): string
    decreases |args|
  {
    if args == [] then ""
    else (if started then " " else "") + (Quote(args[0]) + Joined(args[1..], started || args[0] != ""))
  }

  lemma JoinedStep(line: string, args: seq<string>)
    requires args != []
    ensures
      var next := line + (if line != "" then " " else "") + Quote(args[0]);
      line + Joined(args, line != "") == next + Joined(args[1..], next != "")
  {
    var space, quoted := if line != "" then " " else "", Quote(args[0]);
    var rest := Joined(args[1..], line != "" || args[0] != "");
    AppendAssociative(line, space, quoted + rest);
    AppendAssociative(line + space, quoted, rest);
    assert |line + space + quoted| > 0 <==> |line| > 0 || |args[0]| > 0;
  }

  method BuildLine(args: seq<string>) returns (line: string)
    ensures line == Joined(args, false) + "\n"
  {
    line := "";
    for index := 0 to |args|
      invariant line + Joined(args[index..], line != "") == Joined(args, false)
    {
      JoinedStep(line, args[index..]);
      assert args[index..][1..] == args[index + 1..];
      if line != "" {
        line := line + " ";
      }
      line := line + Quote(args[index]);
    }
    line := line + "\n";
  }

  // ---------------------------------------------------------------------------------------------
  // The receiver

  /** Characters before the first line feed, or None without one. */
  function UpToNewline(s: string): Option<string> {
    if s == "" then None
    else if s[0] == '\n' then Some("")
    else
      var rest :- UpToNewline(s[1..]);
      Some([s[0]] + rest)
  }

  /** Characters before the first quote and what follows it, or None without one. */
  function UpToQuote(s: string): Option<(string, string)> {
    if s == "" then None
    else if s[0] == '"' then Some(("", s[1..]))
    else
      var (t, rest) :- UpToQuote(s[1..]);
      Some(([s[0]] + t, rest))
  }

  function UpToBlank(s: string): (r: (string, string))
    ensures r.0 + r.1 == s
  {
    if s == "" || Blank(s[0]) then ("", s)
    else
      var (t, rest) := UpToBlank(s[1..]);
      ([s[0]] + t, rest)
  }

  lemma {:induction false} QuoteShrinks(s: string)
    ensures UpToQuote(s).Some? ==> |UpToQuote(s).value.1| < |s|
  {
    if s != "" && s[0] != '"' {
      QuoteShrinks(s[1..]);
    }
  }

  /** A word, quoted or not, off the front; None for a quote that never closes. */
  function TakeToken(s: string): (r: Option<(string, string)>)
    requires s != "" && !Blank(s[0])
    ensures r.Some? ==> |r.value.1| < |s|
  {
    if s[0] == '"' then
      QuoteShrinks(s[1..]);
      UpToQuote(s[1..])
    else
      Some(UpToBlank(s))
  }

  function Tokenize(s: string, have: nat): Option<seq<string>>
    decreases |s|
  {
    if s == "" then Some([])
    else if Blank(s[0]) then Tokenize(s[1..], have)
    else if have >= MAX_TOKENS then None
    else
      var (t, rest) :- TakeToken(s);
      var ts :- Tokenize(rest, have + 1);
      Some([t] + ts)
  }

  /** The command of a request: within the size cap, its first line, with at least one token. */
  function Received(request: string): Option<seq<string>> {
    if |request| > MAX_REQUEST then None
    else
      var line :- UpToNewline(request);
      var tokens :- Tokenize(line, 0);
      if tokens == [] then None else Some(tokens)
  }

  /** The rest of a token of which `text` has been read. */
  ghost function Resume(quoted: bool, text: string, s: string): Option<(string, string)> {
    if quoted then
      var (t, rest) :- UpToQuote(s);
      Some((text + t, rest))
    else
      Some((text + UpToBlank(s).0, UpToBlank(s).1))
  }

  lemma ResumeStart(quoted: bool, s: string)
    ensures Resume(quoted, "", s) == if quoted then UpToQuote(s) else Some(UpToBlank(s))
  {
    assert "" + UpToBlank(s).0 == UpToBlank(s).0;
    assert UpToQuote(s).Some? ==> "" + UpToQuote(s).value.0 == UpToQuote(s).value.0;
  }

  lemma ResumeStep(quoted: bool, text: string, s: string)
    requires s != ""
    ensures quoted && s[0] == '"' ==> Resume(quoted, text, s) == Some((text, s[1..]))
    ensures !quoted && Blank(s[0]) ==> Resume(quoted, text, s) == Some((text, s))
    ensures (if quoted then s[0] != '"' else !Blank(s[0])) ==>
              Resume(quoted, text, s) == Resume(quoted, text + [s[0]], s[1..])
  {
    assert text + "" == text;
    var q, b := UpToQuote(s[1..]), UpToBlank(s[1..]);
    assert q.Some? ==> text + ([s[0]] + q.value.0) == (text + [s[0]]) + q.value.0;
    assert text + ([s[0]] + b.0) == (text + [s[0]]) + b.0;
  }

  lemma ResumeEnd(quoted: bool, text: string)
    ensures Resume(quoted, text, "") == if quoted then None else Some((text, ""))
  {
    assert text + "" == text;
  }

  method TakeTokenAt(line: string, start: nat) returns (token: Option<string>, offset: nat)
    requires start < |line| && !Blank(line[start])
    ensures start < offset <= |line|
    ensures match TakeToken(line[start..])
            case None => token == None
            case Some((t, rest)) => token == Some(t) && line[offset..] == rest
  {
    offset := start;
    var quoted := line[offset] == '"';
    if quoted {
      offset := offset + 1;
    }
    var text := "";
    assert line[start..][1..] == line[start + 1..];
    ResumeStart(quoted, line[offset..]);
    while offset < |line|
      invariant start <= offset <= |line| && (offset == start ==> !quoted)
      invariant Resume(quoted, text, line[offset..]) == TakeToken(line[start..])
    {
      var character := line[offset];
      assert line[offset..][1..] == line[offset + 1..];
      ResumeStep(quoted, text, line[offset..]);
      if quoted && character == '"' {
        return Some(text), offset + 1;
      }
      if !quoted && Blank(character) {
        return Some(text), offset;
      }
      text := text + [character];
      offset := offset + 1;
    }
    ResumeEnd(quoted, text);
    assert line[offset..] == "";
    token := if quoted then None else Some(text);
  }

  method ParseAdminCommand(line: string) returns (out: Option<seq<string>>)
    ensures out == match Tokenize(line, 0) case None => None case Some(ts) => if ts == [] then None else Some(ts)
  {
    var tokens: seq<string> := [];
    var offset: nat := 0;
    ghost var goal := Tokenize(line, 0);
    assert line[0..] == line;
    assert goal.Some? ==> [] + goal.value == goal.value;
    while offset < |line|
      invariant offset <= |line|
      invariant goal == match Tokenize(line[offset..], |tokens|) case None => None case Some(ts) => Some(tokens + ts)
      decreases |line| - offset
    {
      assert line[offset..][1..] == line[offset + 1..];
      if Blank(line[offset]) {
        offset := offset + 1;
        continue;
      }
      if |tokens| >= MAX_TOKENS {
        return None;
      }
      var token, next := TakeTokenAt(line, offset);
      if token.None? {
        return None;
      }
      ghost var ts := Tokenize(line[next..], |tokens| + 1);
      assert ts.Some? ==> tokens + ([token.value] + ts.value) == (tokens + [token.value]) + ts.value;
      tokens := tokens + [token.value];
      offset := next;
    }
    assert tokens + [] == tokens;
    out := if tokens == [] then None else Some(tokens);
  }

  // ---------------------------------------------------------------------------------------------
  // What survives the trip

  /** An argument that the quoting carries: with a space or tab it must hold no quote; without, it must not start with one
      nor hold a carriage return. Empty arguments and line feeds are never carried. */
  predicate Carried(a: string) {
    && a != "" && '\n' !in a
    && if NeedsQuotes(a) then '"' !in a else '\r' !in a && a[0] != '"'
  }

  lemma {:induction false} QuoteFound(a: string, rest: string)
    requires '"' !in a
    ensures UpToQuote(a + "\"" + rest) == Some((a, rest))
  {
    var s := a + "\"" + rest;
    if a == "" {
      assert s[0] == '"' && s[1..] == rest;
    } else {
      assert s[0] == a[0] && s[1..] == a[1..] + "\"" + rest;
      QuoteFound(a[1..], rest);
      assert a == [a[0]] + a[1..];
    }
  }

  lemma {:induction false} BlankFound(a: string, rest: string)
    requires (forall i :: 0 <= i < |a| ==> !Blank(a[i])) && (rest == "" || Blank(rest[0]))
    ensures UpToBlank(a + rest) == (a, rest)
  {
    if a == "" {
      assert a + rest == rest;
    } else {
      assert (a + rest)[0] == a[0] && (a + rest)[1..] == a[1..] + rest;
      BlankFound(a[1..], rest);
      assert a == [a[0]] + a[1..];
    }
  }

  /** A carried argument is the first token of its quoted form, whatever separated text follows. */
  lemma CarriedIsToken(a: string, rest: string)
    requires Carried(a) && (rest == "" || Blank(rest[0]))
    ensures
      var s := Quote(a) + rest;
      s != "" && !Blank(s[0]) && TakeToken(s) == Some((a, rest))
  {
    var s := Quote(a) + rest;
    if NeedsQuotes(a) {
      assert s[1..] == a + "\"" + rest;
      QuoteFound(a, rest);
    } else {
      assert forall i :: 0 <= i < |a| ==> a[i] in a;
      BlankFound(a, rest);
      assert s[0] == a[0];
    }
  }

  lemma {:induction false} TokensOfJoined(args: seq<string>, started: bool, have: nat)
    requires forall i :: 0 <= i < |args| ==> Carried(args[i])
    ensures Tokenize(Joined(args, started), have) == if have + |args| <= MAX_TOKENS || args == [] then Some(args) else None
    decreases |args|
  {
    if args != [] {
      var rest := Joined(args[1..], true);
      var s := Quote(args[0]) + rest;
      assert rest == "" || rest[0] == ' ';
      CarriedIsToken(args[0], rest);
      TokensOfJoined(args[1..], true, have + 1);
      if started {
        assert Joined(args, started) == " " + s && (" " + s)[1..] == s;
      } else {
        assert Joined(args, started) == s;
      }
      assert args == [args[0]] + args[1..];
    }
  }

  lemma {:induction false} NewlineEnds(s: string)
    requires '\n' !in s
    ensures UpToNewline(s + "\n") == Some(s)
  {
    if s == "" {
    } else {
      assert (s + "\n")[1..] == s[1..] + "\n";
      assert forall c :: c in s[1..] ==> c in s;
      NewlineEnds(s[1..]);
      assert s == [s[0]] + s[1..];
    }
  }

  lemma {:induction false} JoinedHasNoNewline(args: seq<string>, started: bool)
    requires forall i :: 0 <= i < |args| ==> '\n' !in args[i]
    ensures '\n' !in Joined(args, started)
    decreases |args|
  {
    if args != [] {
      JoinedHasNoNewline(args[1..], started || args[0] != "");
    }
  }

  /** One to sixteen carried arguments whose line fits the cap come out of the tokenizer as they went in. */
  lemma CarriedArgumentsArrive(args: seq<string>)
    requires 1 <= |args| <= MAX_TOKENS && (forall i :: 0 <= i < |args| ==> Carried(args[i]))
    requires |Joined(args, false)| + 1 <= MAX_REQUEST
    ensures Received(Joined(args, false) + "\n") == Some(args)
  {
    JoinedHasNoNewline(args, false);
    NewlineEnds(Joined(args, false));
    TokensOfJoined(args, false, 0);
  }

  /** Arguments without quote, carriage return or line feed, none of them empty, are carried: such lists arrive. */
  lemma PlainArgumentsArrive(args: seq<string>)
    requires 1 <= |args| <= MAX_TOKENS && |Joined(args, false)| + 1 <= MAX_REQUEST
    requires forall i :: 0 <= i < |args| ==> args[i] != "" && '"' !in args[i] && '\r' !in args[i] && '\n' !in args[i]
    ensures Received(Joined(args, false) + "\n") == Some(args)
  {
    forall i | 0 <= i < |args| ensures Carried(args[i]) {
      assert args[i][0] in args[i];
    }
    CarriedArgumentsArrive(args);
  }

  // ---------------------------------------------------------------------------------------------
  // And nothing else does

  /** What any token looks like: a plain word, or something without quotes. */
  predicate Shaped(t: string) {
    || (t != "" && t[0] != '"' && forall i :: 0 <= i < |t| ==> !Blank(t[i]))
    || '"' !in t
  }

  lemma {:induction false} QuotedShape(s: string)
    ensures UpToQuote(s).Some? ==> '"' !in UpToQuote(s).value.0
  {
    if s != "" && s[0] != '"' {
      QuotedShape(s[1..]);
    }
  }

  lemma {:induction false} WordShape(s: string)
    ensures forall i :: 0 <= i < |UpToBlank(s).0| ==> !Blank(UpToBlank(s).0[i])
  {
    if s != "" && !Blank(s[0]) {
      WordShape(s[1..]);
    }
  }

  lemma {:induction false} TokensShaped(s: string, have: nat)
    ensures Tokenize(s, have).Some? ==> forall i :: 0 <= i < |Tokenize(s, have).value| ==> Shaped(Tokenize(s, have).value[i])
    decreases |s|
  {
    if s == "" {
    } else if Blank(s[0]) {
      TokensShaped(s[1..], have);
    } else if have < MAX_TOKENS && TakeToken(s).Some? {
      var (t, rest) := TakeToken(s).value;
      QuotedShape(s[1..]);
      WordShape(s);
      assert Shaped(t);
      TokensShaped(rest, have + 1);
    }
  }

  /** A token a line of shaped arguments can begin with: not empty, and a carriage return only inside quotes. */
  predicate Opening(t: string) {
    t != "" && ('\r' !in t || NeedsQuotes(t))
  }

  /** Separators and quoting aside, the tokens of a line are those of its first argument's text and what follows. */
  lemma SeparatorSkipped(args: seq<string>, started: bool, have: nat)
    requires args != []
    ensures
      Tokenize(Joined(args, started), have)
      == Tokenize(Quote(args[0]) + Joined(args[1..], started || args[0] != ""), have)
  {
    var s := Quote(args[0]) + Joined(args[1..], started || args[0] != "");
    if started {
      assert (" " + s)[1..] == s;
    } else {
      assert "" + s == s;
    }
  }

  lemma {:induction false} ReturnsSkipped(a: string, rest: string, have: nat)
    requires forall i :: 0 <= i < |a| ==> a[i] == '\r'
    ensures Tokenize(a + rest, have) == Tokenize(rest, have)
  {
    if a == "" {
      assert a + rest == rest;
    } else {
      assert (a + rest)[0] == a[0] && (a + rest)[1..] == a[1..] + rest;
      ReturnsSkipped(a[1..], rest, have);
    }
  }

  lemma {:induction false} PlainStart(a: string, rest: string, have: nat)
    requires Shaped(a) && !NeedsQuotes(a) && (exists i :: 0 <= i < |a| && a[i] != '\r')
    requires Tokenize(a + rest, have).Some?
    ensures Tokenize(a + rest, have).value != [] && Opening(Tokenize(a + rest, have).value[0])
    decreases |a|
  {
    var s := a + rest;
    assert s[0] == a[0] && s[1..] == a[1..] + rest;
    assert a[0] in a;
    if a[0] == '\r' {
      assert forall c :: c in a[1..] ==> c in a;
      assert exists i :: 0 <= i < |a[1..]| && a[1..][i] != '\r' by {
        var i :| 0 <= i < |a| && a[i] != '\r';
        assert a[1..][i - 1] == a[i];
      }
      PlainStart(a[1..], rest, have);
    } else {
      assert a[0] != '"' && !Blank(s[0]);
      var t := UpToBlank(s).0;
      WordShape(s);
      assert t != "" && Tokenize(s, have).value[0] == t;
      assert '\r' !in t;
    }
  }

  lemma {:induction false} FirstTokenOpens(args: seq<string>, started: bool, have: nat)
    requires forall i :: 0 <= i < |args| ==> Shaped(args[i])
    ensures
      var tokens := Tokenize(Joined(args, started), have);
      tokens.Some? && tokens.value != [] ==> Opening(tokens.value[0])
    decreases |args|
  {
    if args != [] {
      var a, rest := args[0], Joined(args[1..], started || args[0] != "");
      SeparatorSkipped(args, started, have);
      if NeedsQuotes(a) {
        QuotesExcluded(a);
        assert (Quote(a) + rest)[1..] == a + "\"" + rest;
        QuoteFound(a, rest);
      } else if forall i :: 0 <= i < |a| ==> a[i] == '\r' {
        ReturnsSkipped(a, rest, have);
        FirstTokenOpens(args[1..], started || a != "", have);
      } else if Tokenize(a + rest, have).Some? {
        PlainStart(a, rest, have);
      }
    }
  }

  /** A shaped argument with a space or tab holds no quote. */
  lemma QuotesExcluded(a: string)
    requires Shaped(a) && NeedsQuotes(a)
    ensures '"' !in a
  {
    assert exists i :: 0 <= i < |a| && Blank(a[i]);
  }

  lemma {:induction false} OnlyCarried(args: seq<string>, started: bool, have: nat)
    requires forall i :: 0 <= i < |args| ==> Shaped(args[i]) && '\n' !in args[i]
    requires Tokenize(Joined(args, started), have) == Some(args)
    ensures forall i :: 0 <= i < |args| ==> Carried(args[i])
    decreases |args|
  {
    if args != [] {
      var a := args[0];
      FirstTokenOpens(args, started, have);
      if NeedsQuotes(a) {
        QuotesExcluded(a);
      } else {
        assert a[0] in a;
      }
      assert Carried(a);
      var rest := Joined(args[1..], true);
      SeparatorSkipped(args, started, have);
      CarriedIsToken(a, rest);
      var more := Tokenize(rest, have + 1);
      assert args == [a] + more.value;
      assert args[1..] == more.value;
      OnlyCarried(args[1..], true, have + 1);
    }
  }

  lemma {:induction false} LineHasNoNewline(s: string)
    ensures UpToNewline(s).Some? ==> '\n' !in UpToNewline(s).value
  {
    if s != "" && s[0] != '\n' {
      LineHasNoNewline(s[1..]);
    }
  }

  lemma {:induction false} QuotedChars(s: string, c: char)
    requires c !in s
    ensures UpToQuote(s).Some? ==> c !in UpToQuote(s).value.0 && c !in UpToQuote(s).value.1
  {
    if s != "" {
      assert forall d :: d in s[1..] ==> d in s;
      if s[0] != '"' {
        QuotedChars(s[1..], c);
      }
    }
  }

  /** Tokens are made of the line's characters. */
  lemma {:induction false} TokenChars(s: string, have: nat, c: char)
    requires c !in s
    ensures Tokenize(s, have).Some? ==> forall i :: 0 <= i < |Tokenize(s, have).value| ==> c !in Tokenize(s, have).value[i]
    decreases |s|
  {
    if s != "" {
      assert forall d :: d in s[1..] ==> d in s;
      if Blank(s[0]) {
        TokenChars(s[1..], have, c);
      } else if have < MAX_TOKENS && TakeToken(s).Some? {
        var (t, rest) := TakeToken(s).value;
        QuotedChars(s[1..], c);
        var word := UpToBlank(s);
        assert s == word.0 + word.1;
        assert c !in t && c !in rest;
        TokenChars(rest, have + 1, c);
      }
    }
  }

  /**
   Exactly the carried argument lists survive: what the server parses is what adminctl was given if and only if there are one
   to sixteen arguments, each carried by the quoting, and the line fits the cap.
   */
  lemma ArrivesIffCarried(args: seq<string>)
    ensures
      Received(Joined(args, false) + "\n") == Some(args)
      <==> 1 <= |args| <= MAX_TOKENS && |Joined(args, false)| + 1 <= MAX_REQUEST
           && (forall i :: 0 <= i < |args| ==> Carried(args[i]))
  {
    var request := Joined(args, false) + "\n";
    if 1 <= |args| <= MAX_TOKENS && |Joined(args, false)| + 1 <= MAX_REQUEST && (forall i :: 0 <= i < |args| ==> Carried(args[i])) {
      CarriedArgumentsArrive(args);
    }
    if Received(request) == Some(args) {
      var line := UpToNewline(request).value;
      LineHasNoNewline(request);
      TokenChars(line, 0, '\n');
      TokensShaped(line, 0);
      JoinedHasNoNewline(args, false);
      NewlineEnds(Joined(args, false));
      OnlyCarried(args, false, 0);
      TokensOfJoined(args, false, 0);
    }
  }
}
