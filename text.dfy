/** Sizes, the fixed texts the server sends, and the character-level helpers
 *  it applies to what it receives: the C string cut-off, strncmp, strtok and
 *  the newline-joined client list. Strings are sequences of characters. */
module ChatText {

  datatype Option<T> = None | Some(value: T)

  /** MAX_CLIENTS and BUFFER_SIZE. */
  const MaxClients: nat := 10
  const BufferSize: nat := 1024

  /** The name every admitted session starts with. */
  const Anonymous := "Anonymous"

  /** Every text the server sends to a client or prints on the operator
   *  console, by what it says. The exact characters are Text(n). */
  datatype Notice =
    | Prompt | NameTaken | NameInvalid | HelpDenied | MustSetName | ShutdownDenied
    | KickNotice | ShuttingDown | UnknownCommand
    | NameSetNotice(name: string)
    | JoinNotice(name: string)
    | GoodbyeNotice(name: string)
    | LeftNotice(name: string)
    | DisconnectNotice(name: string)
    | ChatLine(name: string, text: string)
    | PrivateLine(sender: string, text: string)
    | ServerPrivateLine(text: string)
    | ServerNotice(text: string)
    | NotFoundNotice(name: string)
    | RemovedNotice(name: string)
    | ClientList(text: string)          // the list list_clients has built

  /** The characters of a notice: the fixed texts and the snprintf
   *  templates of the server. */
  function Text(n: Notice): string
  {
    match n
    case Prompt => "[SERVER]: Please set your username using /username <name>"
    case NameTaken => "[SERVER]: The username is already taken."
    case NameInvalid => "[SERVER]: Invalid username. Please provide a non-empty username."
    case HelpDenied => "[SERVER]: You do not have permission to see the server help."
    case MustSetName => "[SERVER]: You must set a username before sending messages."
    case ShutdownDenied => "[SERVER]: You do not have permission to shut down the server."
    case KickNotice => "[SERVER]: You are kicked out by the admin!"
    case ShuttingDown => "[SERVER]: The server is shutting down. You will be disconnected."
    case UnknownCommand => "Unknown command. Type /help for a list of commands.\n"
    case NameSetNotice(name) => "[SERVER]: Username set to " + name
    case JoinNotice(name) => "[SERVER]: '" + name + "' has joined the chat room."
    case GoodbyeNotice(name) => "[SERVER]: Goodbye, " + name + "!"
    case LeftNotice(name) => "[SERVER]: " + name + " has left the chat."
    case DisconnectNotice(name) => "[SERVER]: " + name + " disconnected."
    case ChatLine(name, text) => "[" + name + "]: " + text
    case PrivateLine(sender, text) => "[Private from " + sender + "]: " + text
    case ServerPrivateLine(text) => "[Private from SERVER]: " + text
    case ServerNotice(text) => "[SERVER]: " + text
    case NotFoundNotice(name) => "[SERVER]: Recipient '" + name + "' not found."
    case RemovedNotice(name) => name + " Removed!\n"
    case ClientList(text) => text
  }

  /** The first line of the client list. */
  const ListTitle := "Connected clients:"
  const ListHeader := ListTitle + "\n"

  /** The characters of s before the first c, or all of s when c does not
   *  occur: what a C function sees of a buffer once c is, or acts as, its
   *  terminator. */
  function CutAt(s: string, c: char): (r: string)
    ensures r <= s
    ensures c !in r
    ensures |r| < |s| ==> s[|r|] == c
  {
    if s == [] || s[0] == c then [] else [s[0]] + CutAt(s[1..], c)
  }

  /** The first n characters of s, or all of s when it is shorter (strncpy
   *  into a buffer of n + 1 followed by a terminator). */
  function Truncate(s: string, n: nat): string
  {
    if |s| <= n then s else s[..n]
  }

  /** strncmp(s, lit, n) == 0, for a line s without NUL characters. */
  predicate StrNCmpEq(s: string, lit: string, n: nat)
    requires n <= |lit|
  {
    n <= |s| && s[..n] == lit[..n]
  }

  /** k blanks. */
  function Spaces(k: nat): (r: string)
    ensures |r| == k && forall i :: 0 <= i < k ==> r[i] == ' '
  {
    if k == 0 then [] else " " + Spaces(k - 1)
  }

  /** s without its leading blanks: the delimiter skipping strtok does first. */
  function SkipSpaces(s: string): (r: string)
    ensures |r| <= |s| && r == s[|s| - |r|..]
    ensures r == [] || r[0] != ' '
    ensures forall i :: 0 <= i < |s| - |r| ==> s[i] == ' '
  {
    if s != [] && s[0] == ' ' then SkipSpaces(s[1..]) else s
  }

  /** strtok(s, " "): the first blank-delimited token, if there is one. */
  function FirstToken(s: string): Option<string>
  {
    var t := SkipSpaces(s);
    if t == [] then None else Some(CutAt(t, ' '))
  }

  /** strtok(s, " ") followed by strtok(NULL, "\0"): the first token and
   *  everything after the blank that ends it; None when either call
   *  returns NULL. */
  function SplitRecipient(s: string): Option<(string, string)>
  {
    var t := SkipSpaces(s);
    var name := CutAt(t, ' ');
    if name == [] || |name| == |t| then None
    else
      var body := t[|name| + 1..];
      if body == [] then None else Some((name, body))
  }

  /** The strcat loop's output: every line followed by a newline. */
  function JoinLines(lines: seq<string>): string
  {
    if lines == [] then [] else JoinLines(lines[..|lines| - 1]) + lines[|lines| - 1] + "\n"
  }

  /** The reading side of JoinLines: cut a text at its newlines. */
  function SplitLines(s: string): seq<string>
    decreases |s|
  {
    if s == [] then []
    else
      var line := CutAt(s, '\n');
      if |line| == |s| then [s] else [line] + SplitLines(s[|line| + 1..])
  }

  /** Text that holds no newline. */
  predicate OneLine(s: string)
  {
    '\n' !in s
  }

  /** The list header is one line. */
  lemma ListTitleOneLine()
    ensures OneLine(ListTitle)
  {
  }

  lemma AppendAssoc<T>(a: seq<T>, b: seq<T>, c: seq<T>)
    ensures a + b + c == a + (b + c)
  {
  }

  lemma {:induction false} SkipSpacesOver(k: nat, x: string)
    requires x == [] || x[0] != ' '
    ensures SkipSpaces(Spaces(k) + x) == x
  {
    if k > 0 {
      var t := Spaces(k - 1) + x;
      var s := Spaces(k) + x;
      assert s == " " + t by {
        AppendAssoc(" ", Spaces(k - 1), x);
      }
      assert s[0] == ' ' && s[1..] == t;
      assert SkipSpaces(s) == SkipSpaces(t);
      SkipSpacesOver(k - 1, x);
    } else {
      assert Spaces(k) + x == x;
    }
  }

  lemma {:induction false} CutAtFirst(x: string, c: char, y: string)
    requires c !in x
    ensures CutAt(x + [c] + y, c) == x
  {
    if x != [] {
      assert (x + [c] + y)[1..] == x[1..] + [c] + y;
      CutAtFirst(x[1..], c, y);
    }
  }

  lemma {:induction false} CutAtWhole(x: string, c: char)
    requires c !in x
    ensures CutAt(x, c) == x
  {
    if x != [] {
      CutAtWhole(x[1..], c);
    }
  }

  /** A blank-free token followed by nothing or by a blank is cut whole. */
  lemma CutAtToken(name: string, rest: string)
    requires ' ' !in name && (rest == [] || rest[0] == ' ')
    ensures CutAt(name + rest, ' ') == name
  {
    if rest == [] {
      assert name + rest == name;
      CutAtWhole(name, ' ');
    } else {
      assert rest == [' '] + rest[1..];
      AppendAssoc(name, [' '], rest[1..]);
      CutAtFirst(name, ' ', rest[1..]);
    }
  }

  lemma PrefixThen(t: string, x: string, c: char)
    requires x <= t && |x| < |t| && t[|x|] == c
    ensures t == x + [c] + t[|x| + 1..]
  {
    assert t == t[..|x|] + t[|x|..];
    assert t[|x|..] == [c] + t[|x| + 1..];
  }

  /** The text strtok skips before a token is all blanks. */
  lemma SkippedAreSpaces(s: string, t: string)
    requires t == SkipSpaces(s)
    ensures |t| <= |s| && s[..|s| - |t|] == Spaces(|s| - |t|) && s[|s| - |t|..] == t
  {
    AllBlanks(s[..|s| - |t|]);
  }

  /** A text of blanks only is Spaces of its length. */
  lemma AllBlanks(x: string)
    requires forall i :: 0 <= i < |x| ==> x[i] == ' '
    ensures x == Spaces(|x|)
  {
    assert forall i :: 0 <= i < |x| ==> x[i] == Spaces(|x|)[i];
  }

  /** Whatever strtok returns as recipient and body, the argument was blanks,
   *  a blank-free non-empty recipient, one blank and a non-empty body. */
  lemma SplitRecipientSound(s: string)
    requires SplitRecipient(s).Some?
    ensures var name, body := SplitRecipient(s).value.0, SplitRecipient(s).value.1;
      name != [] && ' ' !in name && body != [] &&
      s == Spaces(|s| - |name| - 1 - |body|) + (name + " " + body)
  {
    var t := SkipSpaces(s);
    var name := CutAt(t, ' ');
    var body := t[|name| + 1..];
    assert SplitRecipient(s) == Some((name, body));
    Unskip(s, t, name, body);
  }

  /** The text strtok skipped, the recipient, the blank and the body put
   *  back together. */
  lemma Unskip(s: string, t: string, name: string, body: string)
    requires t == SkipSpaces(s) && name == CutAt(t, ' ') && |name| < |t| && body == t[|name| + 1..]
    ensures s == Spaces(|s| - |name| - 1 - |body|) + (name + " " + body)
  {
    SkippedAreSpaces(s, t);
    PrefixThen(t, name, ' ');
    Reassemble(s, t, name, body);
  }

  lemma Reassemble(s: string, t: string, name: string, body: string)
    requires |t| <= |s| && s[..|s| - |t|] == Spaces(|s| - |t|) && s[|s| - |t|..] == t
    requires t == name + [' '] + body
    ensures s == Spaces(|s| - |name| - 1 - |body|) + (name + " " + body)
  {
    Rejoin(s, |s| - |t|, t);
    assert |s| - |name| - 1 - |body| == |s| - |t|;
  }

  lemma Rejoin(s: string, k: nat, t: string)
    requires k <= |s| && s[..k] == Spaces(k) && s[k..] == t
    ensures s == Spaces(k) + t
  {
    assert s == s[..k] + s[k..];
  }

  /** Conversely, every such text yields exactly that recipient and body. */
  lemma SplitRecipientComplete(k: nat, name: string, body: string)
    requires name != [] && ' ' !in name && body != []
    ensures SplitRecipient(Spaces(k) + (name + " " + body)) == Some((name, body))
  {
    var x := name + " " + body;
    assert SkipSpaces(Spaces(k) + x) == x by {
      assert x[0] == name[0];
      SkipSpacesOver(k, x);
    }
    assert CutAt(x, ' ') == name by {
      CutAtFirst(name, ' ', body);
    }
    SplitRecipientOf(Spaces(k) + x, x, name, body);
  }

  lemma SplitRecipientOf(s: string, t: string, name: string, body: string)
    requires SkipSpaces(s) == t && CutAt(t, ' ') == name && t == name + " " + body
    requires name != [] && body != []
    ensures SplitRecipient(s) == Some((name, body))
  {
    assert t[|name| + 1..] == body;
  }

  /** The operator's "/remove" token: blanks, then a blank-free token ended
   *  by a blank or by the end of the line. */
  lemma FirstTokenComplete(k: nat, name: string, rest: string)
    requires name != [] && ' ' !in name
    requires rest == [] || rest[0] == ' '
    ensures FirstToken(Spaces(k) + (name + rest)) == Some(name)
  {
    var x := name + rest;
    assert SkipSpaces(Spaces(k) + x) == x by { SkipSpacesOver(k, x); }
    assert CutAt(x, ' ') == name by { CutAtToken(name, rest); }
  }

  /** strtok(s, " ") returns NULL exactly when s is empty or all blanks;
   *  a token it returns is non-empty and blank-free, preceded only by the
   *  leading blanks of s and followed by a blank or the end of s. */
  lemma FirstTokenSound(s: string)
    ensures FirstToken(s).None? <==> forall i :: 0 <= i < |s| ==> s[i] == ' '
    ensures FirstToken(s).Some? ==>
      var tok := FirstToken(s).value;
      var k := |s| - |SkipSpaces(s)|;
      tok != [] && ' ' !in tok && 0 <= k && k + |tok| <= |s| &&
      (forall i :: 0 <= i < k ==> s[i] == ' ') &&
      s[k..k + |tok|] == tok && (k + |tok| == |s| || s[k + |tok|] == ' ')
  {
    NoTokenOnlyBlanks(s);
    TokenShape(s);
  }

  lemma NoTokenOnlyBlanks(s: string)
    ensures FirstToken(s).None? <==> forall i :: 0 <= i < |s| ==> s[i] == ' '
  {
    var t := SkipSpaces(s);
    if t != [] {
      assert s[|s| - |t|] == t[0];
    }
  }

  lemma TokenShape(s: string)
    ensures FirstToken(s).Some? ==>
      var tok := FirstToken(s).value;
      var k := |s| - |SkipSpaces(s)|;
      tok != [] && ' ' !in tok && 0 <= k && k + |tok| <= |s| &&
      (forall i :: 0 <= i < k ==> s[i] == ' ') &&
      s[k..k + |tok|] == tok && (k + |tok| == |s| || s[k + |tok|] == ' ')
  {
    if SkipSpaces(s) != [] {
      assert FirstToken(s) == Some(CutAt(SkipSpaces(s), ' '));
      TokenAfterBlanks(s);
    }
  }

  lemma TokenAfterBlanks(s: string)
    requires SkipSpaces(s) != []
    ensures var tok := CutAt(SkipSpaces(s), ' ');
      var k := |s| - |SkipSpaces(s)|;
      tok != [] && ' ' !in tok && 0 <= k && k + |tok| <= |s| &&
      (forall i :: 0 <= i < k ==> s[i] == ' ') &&
      s[k..k + |tok|] == tok && (k + |tok| == |s| || s[k + |tok|] == ' ')
  {
    var t := SkipSpaces(s);
    TokenThenRest(t);
    TokenPlaced(s, t, CutAt(t, ' '), t[|CutAt(t, ' ')|..]);
  }

  lemma TokenPlaced(s: string, t: string, tok: string, rest: string)
    requires |t| <= |s| && t == s[|s| - |t|..] && t == tok + rest
    requires rest == [] || rest[0] == ' '
    ensures var k := |s| - |t|;
      k + |tok| <= |s| && s[k..k + |tok|] == tok && (k + |tok| == |s| || s[k + |tok|] == ' ')
  {
    var k := |s| - |t|;
    assert s[k..k + |tok|] == t[..|tok|];
  }

  /** A text that does not start with a blank is its first token followed
   *  by a blank or nothing. */
  lemma TokenThenRest(t: string)
    requires t != [] && t[0] != ' '
    ensures var tok := CutAt(t, ' ');
      var rest := t[|tok|..];
      tok != [] && t == tok + rest && (rest == [] || rest[0] == ' ')
  {
    var tok := CutAt(t, ' ');
    assert tok == [t[0]] + CutAt(t[1..], ' ');
  }

  lemma {:induction false} JoinLinesCons(line: string, lines: seq<string>)
    ensures JoinLines([line] + lines) == line + "\n" + JoinLines(lines)
    decreases |lines|
  {
    if lines != [] {
      var n := |lines|;
      assert ([line] + lines)[..n] == [line] + lines[..n - 1];
      JoinLinesCons(line, lines[..n - 1]);
    } else {
      assert [line] + lines == [line];
      assert JoinLines([line]) == JoinLines([]) + line + "\n";
    }
  }

  /** Lines that hold no newline are read back exactly from their join. */
  lemma {:induction false} SplitJoinLines(lines: seq<string>)
    requires forall i :: 0 <= i < |lines| ==> OneLine(lines[i])
    ensures SplitLines(JoinLines(lines)) == lines
    decreases |lines|
  {
    if lines != [] {
      var rest := lines[1..];
      assert lines == [lines[0]] + rest;
      JoinLinesCons(lines[0], rest);
      var s := JoinLines(lines);
      assert s == lines[0] + ['\n'] + JoinLines(rest);
      CutAtFirst(lines[0], '\n', JoinLines(rest));
      assert s[|lines[0]| + 1..] == JoinLines(rest);
      SplitJoinLines(rest);
    }
  }
}
