/** The pipeline shell's line parser: bars split the line into commands, blanks split a
    command into arguments, all of it in place in one character buffer. */
module ShellParser {
  import opened CStrings

  const MAX_ARGS := 32
  const MAX_COMMANDS := 10

  type Command = seq<string>

  function Take<T>(s: seq<T>, n: nat): seq<T> {
    if |s| <= n then s else s[..n]
  }

  // ----- what the parser computes

  function TrimLeft(s: string): string
  {
    if s != "" && s[0] == ' ' then TrimLeft(s[1..]) else s
  }

  function TrimRight(s: string): string
  {
    if s != "" && s[|s| - 1] == ' ' then TrimRight(s[..|s| - 1]) else s
  }

  function Trim(s: string): string { TrimRight(TrimLeft(s)) }

  function ParseCommand(segment: string): Command {
    Take(Tokens(Trim(segment), ' '), MAX_ARGS)
  }

  function ParseSegments(segments: seq<string>): (cs: seq<Command>)
    ensures |cs| == |segments|
  {
    if segments == [] then [] else [ParseCommand(segments[0])] + ParseSegments(segments[1..])
  }

  function Parse(line: string): seq<Command> {
    ParseSegments(Take(Tokens(line, '|'), MAX_COMMANDS))
  }

  /** One round of the shell: the line `exit` ends it, any other line is parsed. */
  datatype Action = Quit | Run(commands: seq<Command>)

  function Interpret(line: string): Action {
    if line == "exit" then Quit else Run(Parse(line))
  }

  // ----- the explicit trim is redundant

  lemma {:induction false} TrimLeftKeepsTokens(s: string)
    ensures Tokens(TrimLeft(s), ' ') == Tokens(s, ' ')
  {
    if s != "" && s[0] == ' ' {
      TrimLeftKeepsTokens(s[1..]);
    }
  }

  lemma {:induction false} TrimRightKeepsTokens(s: string)
    ensures Tokens(TrimRight(s), ' ') == Tokens(s, ' ')
  {
    if s != "" && s[|s| - 1] == ' ' {
      TrimRightKeepsTokens(s[..|s| - 1]);
      TokensSplit(s[..|s| - 1], "", ' ');
      assert s == s[..|s| - 1] + [' '] + "";
    }
  }

  predicate Blank(s: string) {
    forall c :: c in s ==> c == ' '
  }

  /** Trimming takes away blanks at both ends, and all of them. */
  lemma TrimIs(s: string) returns (left: string, right: string)
    ensures s == left + Trim(s) + right && Blank(left) && Blank(right)
    ensures Trim(s) != "" ==> Trim(s)[0] != ' ' && Trim(s)[|Trim(s)| - 1] != ' '
  {
    left := TrimLeftIs(s);
    right := TrimRightIs(TrimLeft(s));
  }

  lemma {:induction false} TrimLeftIs(s: string) returns (left: string)
    ensures s == left + TrimLeft(s) && Blank(left) && (TrimLeft(s) != "" ==> TrimLeft(s)[0] != ' ')
  {
    if s != "" && s[0] == ' ' {
      left := TrimLeftIs(s[1..]);
      left := [' '] + left;
    } else {
      left := "";
    }
  }

  lemma {:induction false} TrimRightIs(s: string) returns (right: string)
    ensures s == TrimRight(s) + right && Blank(right)
    ensures TrimRight(s) != "" ==> TrimRight(s)[|TrimRight(s)| - 1] != ' ' && TrimRight(s)[0] == s[0]
  {
    if s != "" && s[|s| - 1] == ' ' {
      right := TrimRightIs(s[..|s| - 1]);
      right := right + [' '];
    } else {
      right := "";
    }
  }

  /** Trimming a segment never changes the arguments it yields. */
  lemma TrimIsRedundant(segment: string)
    ensures ParseCommand(segment) == Take(Tokens(segment, ' '), MAX_ARGS)
  {
    TrimLeftKeepsTokens(segment);
    TrimRightKeepsTokens(TrimLeft(segment));
  }

  // ----- printing and parsing

  ghost predicate IsWord(w: string) {
    w != "" && forall c :: c in w ==> c != ' ' && c != '|' && c != '\n' && c != '\0'
  }

  ghost predicate IsCommand(c: Command) {
    forall w :: w in c ==> IsWord(w)
  }

  /** The command lines the limits of the parser admit. */
  ghost predicate Printable(cs: seq<Command>) {
    |cs| <= MAX_COMMANDS && forall c :: c in cs ==> IsCommand(c) && |c| <= MAX_ARGS
  }

  function PrintCommand(c: Command): string {
    if c == [] then "" else if |c| == 1 then c[0] else c[0] + " " + PrintCommand(c[1..])
  }

  function Print(cs: seq<Command>): string {
    if cs == [] then "" else if |cs| == 1 then PrintCommand(cs[0]) else PrintCommand(cs[0]) + " | " + Print(cs[1..])
  }

  lemma {:induction false} TokensOfPrintedCommand(c: Command)
    requires forall w :: w in c ==> IsWord(w)
    ensures Tokens(PrintCommand(c), ' ') == c
    ensures '|' !in PrintCommand(c)
    ensures PrintCommand(c) == "" <==> c == []
  {
    if c != [] {
      assert IsWord(c[0]);
      TokensOfWord(c[0], ' ');
      if |c| > 1 {
        assert PrintCommand(c) == c[0] + [' '] + PrintCommand(c[1..]);
        TokensOfPrintedCommand(c[1..]);
        TokensSplit(c[0], PrintCommand(c[1..]), ' ');
        assert c == [c[0]] + c[1..];
      }
    }
  }

  lemma TokensOfPadded(left: string, p: string, right: string)
    requires left in {"", " "} && right in {"", " "}
    ensures Tokens(left + p + right, ' ') == Tokens(p, ' ')
  {
    if left == "" {
      assert left + p == p;
    } else {
      TokensSplit("", p, ' ');
      assert left + p == "" + [' '] + p;
    }
    if right == "" {
      assert left + p + right == left + p;
    } else {
      TokensSplit(left + p, "", ' ');
      assert left + p + right == (left + p) + [' '] + "";
    }
  }

  lemma ParsePaddedCommand(c: Command, left: string, right: string)
    requires IsCommand(c)
    requires left in {"", " "} && right in {"", " "}
    ensures ParseCommand(left + PrintCommand(c) + right) == Take(c, MAX_ARGS)
  {
    TokensOfPrintedCommand(c);
    TokensOfPadded(left, PrintCommand(c), right);
    TrimIsRedundant(left + PrintCommand(c) + right);
  }

  lemma SegmentParses(c: Command, left: string, right: string)
    requires IsCommand(c)
    requires left in {"", " "} && right in {"", " "}
    requires left != "" || right != "" || c != []
    ensures ParseSegments(Tokens(left + PrintCommand(c) + right, '|')) == [Take(c, MAX_ARGS)]
  {
    var segment := left + PrintCommand(c) + right;
    TokensOfPrintedCommand(c);
    ParsePaddedCommand(c, left, right);
    assert '|' !in segment && segment != "";
    TokensOfWord(segment, '|');
  }

  lemma {:induction false} ParseSegmentsOfConcat(a: seq<string>, b: seq<string>)
    ensures ParseSegments(a + b) == ParseSegments(a) + ParseSegments(b)
  {
    if a == [] {
      assert a + b == b;
    } else {
      assert (a + b)[1..] == a[1..] + b;
      ParseSegmentsOfConcat(a[1..], b);
    }
  }

  lemma JoinTwo(left: string, a: string, b: string)
    ensures left + (a + " | " + b) == (left + a + " ") + ['|'] + (" " + b)
  {
    assert " | " == " " + ['|'] + " ";
  }

  lemma SegmentStep(c: Command, left: string, rest: string)
    requires IsCommand(c) && left in {"", " "}
    ensures ParseSegments(Tokens(left + PrintCommand(c) + " " + ['|'] + rest, '|')) ==
            [Take(c, MAX_ARGS)] + ParseSegments(Tokens(rest, '|'))
  {
    var segment := left + PrintCommand(c) + " ";
    TokensSplit(segment, rest, '|');
    SegmentParses(c, left, " ");
    ParseSegmentsOfConcat(Tokens(segment, '|'), Tokens(rest, '|'));
  }

  lemma LastSegment(c: Command, left: string)
    requires IsCommand(c) && left in {"", " "}
    requires left != "" || c != []
    ensures ParseSegments(Tokens(left + PrintCommand(c), '|')) == [Take(c, MAX_ARGS)]
  {
    SegmentParses(c, left, "");
    assert left + PrintCommand(c) + "" == left + PrintCommand(c);
  }

  /** The commands `cs`, as far as the parser keeps their words. */
  ghost predicate FirstWords(parsed: seq<Command>, cs: seq<Command>) {
    |parsed| == |cs| && forall i :: 0 <= i < |cs| ==> parsed[i] == Take(cs[i], MAX_ARGS)
  }

  /** The segments of printed commands, with a blank in front or not, parse back to the commands. */
  lemma {:induction false} SegmentsOfPrinted(cs: seq<Command>, left: string)
    requires cs != [] && left in {"", " "}
    requires forall c :: c in cs ==> IsCommand(c)
    requires left == " " || cs != [[]]
    ensures FirstWords(ParseSegments(Tokens(left + Print(cs), '|')), cs)
    decreases |cs|
  {
    var c := cs[0];
    if |cs| == 1 {
      LastSegment(c, left);
    } else {
      var segment, rest := left + PrintCommand(c) + " ", " " + Print(cs[1..]);
      JoinTwo(left, PrintCommand(c), Print(cs[1..]));
      SegmentStep(c, left, rest);
      SegmentsOfPrinted(cs[1..], " ");
      assert forall i :: 0 < i < |cs| ==> cs[i] == cs[1..][i - 1];
    }
  }

  /** The parser keeps the first ten commands of a line, and of each the first 32 words. */
  lemma LongLinesAreCut(cs: seq<Command>)
    requires cs != [] && cs != [[]] && forall c :: c in cs ==> IsCommand(c)
    ensures |Parse(Print(cs))| == if |cs| <= 10 then |cs| else 10
    ensures forall i :: 0 <= i < |Parse(Print(cs))| ==>
              Parse(Print(cs))[i] == if |cs[i]| <= 32 then cs[i] else cs[i][..32]
  {
    SegmentsOfPrinted(cs, "");
    assert "" + Print(cs) == Print(cs);
    var segments := Tokens(Print(cs), '|');
    if |segments| > MAX_COMMANDS {
      assert segments == segments[..MAX_COMMANDS] + segments[MAX_COMMANDS..];
      ParseSegmentsOfConcat(segments[..MAX_COMMANDS], segments[MAX_COMMANDS..]);
    }
  }

  /** Parsing inverts printing, except for one command without arguments: its line is empty. */
  lemma ParseInvertsPrint(cs: seq<Command>)
    requires Printable(cs)
    ensures Parse(Print(cs)) == cs <==> cs != [[]]
  {
    if cs == [[]] {
      assert Print(cs) == "";
    } else if cs != [] {
      LongLinesAreCut(cs);
    }
  }

  lemma ExitLine()
    ensures Print([["exit"]]) == "exit" && Printable([["exit"]])
    ensures Parse("exit") == [["exit"]]
  {
    assert IsWord("exit");
    ParseInvertsPrint([["exit"]]);
  }

  /** The shell runs exactly the commands printed, unless their line is empty or is its own `exit`. */
  lemma InterpretInvertsPrint(cs: seq<Command>)
    requires Printable(cs)
    ensures Interpret(Print(cs)) == Run(cs) <==> cs != [[]] && cs != [["exit"]]
  {
    ParseInvertsPrint(cs);
    ExitLine();
  }

  // ----- the parser in its buffer

  /** The C string that starts at offset `p` of buffer `b` is `s`. */
  ghost predicate CStringAt(b: seq<char>, p: int, s: string) {
    && 0 <= p && p + |s| < |b| && b[p + |s|] == '\0'
    && forall i {:trigger s[i]} :: 0 <= i < |s| ==> b[p + i] == s[i] && s[i] != '\0'
  }

  /** From `b` to `b'` nothing changed but some characters of b[lo..hi] that became NUL. */
  ghost predicate Punched(b: seq<char>, b': seq<char>, lo: int, hi: int) {
    && |b| == |b'|
    && forall i {:trigger b'[i]} :: 0 <= i < |b| ==> b'[i] == b[i] || (lo <= i < hi && b'[i] == '\0')
  }

  /** A string that ends before the punched stretch, or starts at or after its end, keeps its value. */
  lemma CStringKept(b: seq<char>, b': seq<char>, lo: int, hi: int, p: int, s: string)
    requires Punched(b, b', lo, hi) && CStringAt(b, p, s)
    requires p + |s| < lo || hi <= p || lo == hi
    ensures CStringAt(b', p, s)
  {
  }

  lemma {:induction false} TokensFirst(s: string, d: char, skip: nat, len: nat)
    requires skip < |s| && (forall i :: 0 <= i < skip ==> s[i] == d) && s[skip] != d
    requires len == TokenLength(s[skip..], d)
    ensures Tokens(s, d) == [s[skip..skip + len]] + Tokens(s[skip + len..], d)
  {
    if skip > 0 {
      var t := s[1..];
      assert t[skip - 1..] == s[skip..];
      TokensFirst(t, d, skip - 1, len);
      assert t[skip - 1..skip - 1 + len] == s[skip..skip + len];
      assert t[skip - 1 + len..] == s[skip + len..];
    }
  }

  lemma {:induction false} TokensOfBlanks(s: string, d: char)
    requires forall i :: 0 <= i < |s| ==> s[i] == d
    ensures Tokens(s, d) == []
  {
    if s != "" {
      TokensOfBlanks(s[1..], d);
    }
  }

  /** What the buffer holds at offset `i` of the string at `p`. */
  lemma CharAt(b: seq<char>, p: int, s: string, i: nat)
    requires CStringAt(b, p, s) && i <= |s|
    ensures b[p + i] == (if i < |s| then s[i] else '\0')
    ensures b[p + i] == '\0' <==> i == |s|
  {
  }

  lemma SuffixAt(b: seq<char>, p: int, s: string, i: nat)
    requires CStringAt(b, p, s) && i <= |s|
    ensures CStringAt(b, p + i, s[i..])
  {
  }

  /** Skips the delimiters at the front of the string. */
  method SkipDelimiters(buf: array<char>, start: int, d: char, ghost s: string) returns (tok: int)
    requires CStringAt(buf[..], start, s) && d != '\0'
    ensures start <= tok <= start + |s|
    ensures forall i :: 0 <= i < tok - start ==> s[i] == d
    ensures tok < start + |s| ==> s[tok - start] != d
    ensures buf[tok] == '\0' <==> tok == start + |s|
  {
    tok := start;
    CharAt(buf[..], start, s, 0);
    while buf[tok] == d
      invariant start <= tok <= start + |s|
      invariant forall i :: 0 <= i < tok - start ==> s[i] == d
      invariant buf[tok] == if tok < start + |s| then s[tok - start] else '\0'
      decreases start + |s| - tok
    {
      tok := tok + 1;
      CharAt(buf[..], start, s, tok - start);
    }
    CharAt(buf[..], start, s, tok - start);
  }

  /** Finds the end of the token at the front of the string. */
  method ScanToken(buf: array<char>, tok: int, d: char, ghost s: string) returns (end: int)
    requires CStringAt(buf[..], tok, s)
    ensures end == tok + TokenLength(s, d)
    ensures buf[end] == '\0' <==> end == tok + |s|
  {
    end := tok;
    ghost var len := TokenLength(s, d);
    CharAt(buf[..], tok, s, 0);
    while buf[end] != d && buf[end] != '\0'
      invariant tok <= end <= tok + len
      invariant buf[end] == if end < tok + |s| then s[end - tok] else '\0'
      decreases tok + len - end
    {
      end := end + 1;
      CharAt(buf[..], tok, s, end - tok);
    }
    CharAt(buf[..], tok, s, end - tok);
  }

  /** Overwriting the character at `end` with NUL leaves two strings. */
  lemma CutString(b: seq<char>, p: int, s: string, skip: nat, end: nat)
    requires CStringAt(b, p, s) && skip <= end <= |s|
    ensures CStringAt(b[p + end := '\0'], p + skip, s[skip..end])
    ensures end < |s| ==> CStringAt(b[p + end := '\0'], p + end + 1, s[end + 1..])
    ensures end == |s| ==> b[p + end := '\0'] == b
    ensures Punched(b, b[p + end := '\0'], p, p + |s|)
  {
  }

  /** What follows the token that ends at `end`, and its delimiter if there is one. */
  function AfterToken(s: string, end: nat): string
    requires end <= |s|
  {
    if end == |s| then "" else s[end + 1..]
  }

  lemma FirstToken(s: string, d: char, skip: nat, end: nat)
    requires skip < |s| && (forall i :: 0 <= i < skip ==> s[i] == d) && s[skip] != d
    requires skip <= end <= |s| && end - skip == TokenLength(s[skip..], d)
    ensures var t := Tokens(s, d); t != [] && t[0] == s[skip..end] && t[1..] == Tokens(AfterToken(s, end), d)
  {
    TokensFirst(s, d, skip, end - skip);
    if end < |s| {
      assert s[skip..][end - skip] == d;
      assert s[end..][1..] == s[end + 1..];
    } else {
      assert s[end..] == "";
    }
  }

  /** Ends the token that starts at `tok` with a NUL. */
  method EndToken(buf: array<char>, start: int, tok: int, d: char, ghost s: string)
    returns (save: int, ghost rest: string)
    requires CStringAt(buf[..], start, s) && d != '\0' && start <= tok < start + |s|
    requires (forall i :: 0 <= i < tok - start ==> s[i] == d) && s[tok - start] != d
    modifies buf
    ensures Punched(old(buf[..]), buf[..], start, start + |s|)
    ensures CStringAt(buf[..], save, rest) && save + |rest| == start + |s|
    ensures var t := Tokens(s, d);
            && t != [] && CStringAt(buf[..], tok, t[0]) && Tokens(rest, d) == t[1..]
            && tok + |t[0]| <= save && (rest != "" ==> tok + |t[0]| < save)
  {
    ghost var b, skip := buf[..], tok - start;
    SuffixAt(b, start, s, skip);
    save := ScanToken(buf, tok, d, s[skip..]);
    ghost var end := save - start;
    FirstToken(s, d, skip, end);
    CutString(b, start, s, skip, end);
    rest := AfterToken(s, end);
    if buf[save] != '\0' {
      buf[save] := '\0';
      save := save + 1;
    }
    assert buf[..] == b[start + end := '\0'];
  }

  /** strtok_r on the string at `start`: -1 stands for NULL, `save` for the saved pointer. */
  method StrtokR(buf: array<char>, start: int, d: char, ghost s: string)
    returns (tok: int, save: int, ghost rest: string)
    requires CStringAt(buf[..], start, s) && d != '\0'
    modifies buf
    ensures Punched(old(buf[..]), buf[..], start, start + |s|)
    ensures CStringAt(buf[..], save, rest) && start <= save && save + |rest| == start + |s|
    ensures tok == -1 <==> Tokens(s, d) == []
    ensures tok == -1 ==> rest == ""
    ensures tok != -1 ==>
              var t := Tokens(s, d);
              && CStringAt(buf[..], tok, t[0]) && Tokens(rest, d) == t[1..]
              && start <= tok && tok + |t[0]| <= save && (rest != "" ==> tok + |t[0]| < save)
  {
    tok := SkipDelimiters(buf, start, d, s);
    if buf[tok] == '\0' {
      TokensOfBlanks(s, d);
      save, rest, tok := tok, "", -1;
      return;
    }
    save, rest := EndToken(buf, start, tok, d, s);
  }

  /** The loop over the blanks in front of a segment. */
  method TrimFront(buf: array<char>, start: int, ghost s: string) returns (cmd: int)
    requires CStringAt(buf[..], start, s)
    ensures start <= cmd <= start + |s| && TrimLeft(s) == s[cmd - start..]
    ensures CStringAt(buf[..], cmd, TrimLeft(s))
  {
    cmd := start;
    CharAt(buf[..], start, s, 0);
    while buf[cmd] == ' '
      invariant start <= cmd <= start + |s|
      invariant TrimLeft(s[cmd - start..]) == TrimLeft(s)
      invariant buf[cmd] == if cmd < start + |s| then s[cmd - start] else '\0'
      decreases start + |s| - cmd
    {
      assert s[cmd - start..][1..] == s[cmd - start + 1..];
      cmd := cmd + 1;
      CharAt(buf[..], start, s, cmd - start);
    }
    SuffixAt(buf[..], start, s, cmd - start);
  }

  /** The two trimming loops around a segment. */
  method TrimInPlace(buf: array<char>, start: int, ghost s: string) returns (cmd: int)
    requires CStringAt(buf[..], start, s)
    modifies buf
    ensures Punched(old(buf[..]), buf[..], start, start + |s|)
    ensures CStringAt(buf[..], cmd, Trim(s)) && start <= cmd && cmd + |Trim(s)| <= start + |s|
  {
    cmd := TrimFront(buf, start, s);
    TrimBack(buf, cmd, TrimLeft(s));
  }

  method TrimBack(buf: array<char>, cmd: int, ghost text: string)
    requires CStringAt(buf[..], cmd, text)
    modifies buf
    ensures Punched(old(buf[..]), buf[..], cmd, cmd + |text|)
    ensures CStringAt(buf[..], cmd, TrimRight(text)) && |TrimRight(text)| <= |text|
  {
    var len := StrLen(buf, cmd, text);
    ghost var t := text;
    while len > 0 && buf[cmd + len - 1] == ' '
      invariant 0 <= len == |t| <= |text|
      invariant Punched(old(buf[..]), buf[..], cmd, cmd + |text|)
      invariant CStringAt(buf[..], cmd, t)
      invariant TrimRight(t) == TrimRight(text)
    {
      CharAt(buf[..], cmd, t, len - 1);
      t := t[..len - 1];
      buf[cmd + len - 1] := '\0';
      len := len - 1;
    }
    if len > 0 {
      CharAt(buf[..], cmd, t, len - 1);
    }
  }

  method StrLen(buf: array<char>, p: int, ghost s: string) returns (len: int)
    requires CStringAt(buf[..], p, s)
    ensures len == |s|
  {
    len := 0;
    CharAt(buf[..], p, s, 0);
    while buf[p + len] != '\0'
      invariant 0 <= len <= |s| && (buf[p + len] == '\0' <==> len == |s|)
      decreases |s| - len
    {
      len := len + 1;
      CharAt(buf[..], p, s, len);
    }
  }

  ghost predicate EndBefore(ps: seq<int>, ts: seq<string>, limit: int) {
    |ps| == |ts| && forall i :: 0 <= i < |ps| ==> ps[i] + |ts[i]| < limit
  }

  /** After `n` tokens of `all` were consumed: `cmd` is token `n`, or -1 at the end, and the saved
      pointer stands behind its NUL, at a string that holds the remaining tokens. */
  ghost predicate Fetched(b: seq<char>, d: char, all: seq<string>, n: nat, cmd: int, save: int, rest: string) {
    && CStringAt(b, save, rest) && n <= |all| && (cmd == -1 <==> n == |all|)
    && (cmd != -1 ==>
          && Tokens(rest, d) == all[n + 1..] && CStringAt(b, cmd, all[n])
          && cmd + |all[n]| <= save && (rest != "" ==> cmd + |all[n]| < save))
  }

  /** The offsets `ps` point at the strings `ts`, one behind the other inside b[lo..hi]. */
  ghost predicate PointAt(b: seq<char>, ps: seq<int>, ts: seq<string>, lo: int, hi: int) {
    && |ps| == |ts|
    && forall k :: 0 <= k < |ps| ==> CStringAt(b, ps[k], ts[k]) && lo <= ps[k] && ps[k] + |ts[k]| <= hi
  }

  lemma PointersExtended(b: seq<char>, ps: seq<int>, all: seq<string>, p: int, lo: int, hi: int)
    requires |ps| < |all| && PointAt(b, ps, all[..|ps|], lo, hi)
    requires CStringAt(b, p, all[|ps|]) && lo <= p && p + |all[|ps|]| <= hi
    ensures PointAt(b, ps + [p], all[..|ps| + 1], lo, hi)
  {
    assert all[..|ps| + 1] == all[..|ps|] + [all[|ps|]];
  }

  lemma PointersKept(b: seq<char>, b': seq<char>, ps: seq<int>, ts: seq<string>, lo: int, mid: int, hi: int)
    requires PointAt(b, ps, ts, lo, hi) && Punched(b, b', mid, hi)
    requires mid <= hi && (mid < hi ==> EndBefore(ps, ts, mid))
    ensures PointAt(b', ps, ts, lo, hi)
  {
    forall k | 0 <= k < |ps| ensures CStringAt(b', ps[k], ts[k]) {
      CStringKept(b, b', mid, hi, ps[k], ts[k]);
    }
  }

  /** One round of the argument loop: store the current argument, fetch the next. */
  method StoreArgument(buf: array<char>, args: seq<int>, arg: int, save: int, ghost all: seq<string>,
                       ghost rest: string, ghost lo: int, ghost hi: int)
    returns (args': seq<int>, arg': int, save': int, ghost rest': string)
    requires arg != -1 && Fetched(buf[..], ' ', all, |args|, arg, save, rest)
    requires lo <= arg <= save && save + |rest| == hi
    requires PointAt(buf[..], args, all[..|args|], lo, hi) && (rest != "" ==> EndBefore(args, all[..|args|], save))
    modifies buf
    ensures |args'| == |args| + 1 && Punched(old(buf[..]), buf[..], save, hi)
    ensures Fetched(buf[..], ' ', all, |args'|, arg', save', rest')
    ensures save <= save' && save' + |rest'| == hi && (arg' != -1 ==> save <= arg' <= save')
    ensures PointAt(buf[..], args', all[..|args'|], lo, hi) && (rest' != "" ==> EndBefore(args', all[..|args'|], save'))
  {
    ghost var before := buf[..];
    PointersExtended(before, args, all, arg, lo, hi);
    args' := args + [arg];
    arg', save', rest' := StrtokR(buf, save, ' ', rest);
    PointersKept(before, buf[..], args', all[..|args'|], lo, save, hi);
  }

  /** The argument loop over one trimmed segment. */
  method SplitArguments(buf: array<char>, start: int, ghost s: string) returns (args: seq<int>)
    requires CStringAt(buf[..], start, s)
    modifies buf
    ensures Punched(old(buf[..]), buf[..], start, start + |s|)
    ensures PointAt(buf[..], args, Take(Tokens(s, ' '), MAX_ARGS), start, start + |s|)
  {
    ghost var all, hi := Tokens(s, ' '), start + |s|;
    ghost var rest;
    args := [];
    var arg, save;
    arg, save, rest := StrtokR(buf, start, ' ', s);
    while arg != -1 && |args| < MAX_ARGS
      invariant |args| <= MAX_ARGS
      invariant Punched(old(buf[..]), buf[..], start, hi)
      invariant Fetched(buf[..], ' ', all, |args|, arg, save, rest)
      invariant start <= save && save + |rest| == hi && (arg != -1 ==> start <= arg <= save)
      invariant PointAt(buf[..], args, all[..|args|], start, hi)
      invariant rest != "" ==> EndBefore(args, all[..|args|], save)
      decreases MAX_ARGS - |args|
    {
      args, arg, save, rest := StoreArgument(buf, args, arg, save, all, rest, start, hi);
    }
    assert Take(all, MAX_ARGS) == all[..|args|];
  }

  /** `ps` are segment starts with texts `ts`, one strictly behind the other, all before `hi`. */
  ghost predicate Segments(b: seq<char>, ps: seq<int>, ts: seq<string>) {
    && |ps| == |ts|
    && (forall i :: 0 <= i < |ps| ==> CStringAt(b, ps[i], ts[i]))
    && InOrder(ps, ts)
  }

  ghost predicate InOrder(ps: seq<int>, ts: seq<string>) {
    |ps| == |ts| && forall i, j :: 0 <= i < j < |ps| ==> ps[i] + |ts[i]| < ps[j]
  }

  /** `ts` are the first |ts| segments of a line, trimmed. */
  ghost predicate Trimmed(ts: seq<string>, segments: seq<string>) {
    |ts| <= |segments| && forall i :: 0 <= i < |ts| ==> ts[i] == Trim(segments[i])
  }

  /** Storing a trimmed segment keeps the earlier ones and the unread rest of the line. */
  lemma SegmentStored(b: seq<char>, b': seq<char>, ps: seq<int>, ts: seq<string>, cmd: int, word: string,
                      cmd': int, save: int, rest: string)
    requires Segments(b, ps, ts) && EndBefore(ps, ts, cmd)
    requires CStringAt(b, save, rest) && cmd + |word| <= save
    requires Punched(b, b', cmd, cmd + |word|) && CStringAt(b', cmd', Trim(word))
    requires cmd <= cmd' && cmd' + |Trim(word)| <= cmd + |word|
    ensures Segments(b', ps + [cmd'], ts + [Trim(word)])
    ensures CStringAt(b', save, rest)
    ensures cmd + |word| < save ==> EndBefore(ps + [cmd'], ts + [Trim(word)], save)
  {
    SegmentsKept(b, b', ps, ts, cmd, cmd + |word|);
    CStringKept(b, b', cmd, cmd + |word|, save, rest);
  }

  /** One round of the bar loop: trim the current segment, store it, fetch the next. */
  method StoreSegment(buf: array<char>, starts: seq<int>, cmd: int, save: int, ghost all: seq<string>,
                      ghost texts: seq<string>, ghost rest: string)
    returns (starts': seq<int>, cmd': int, save': int, ghost texts': seq<string>, ghost rest': string)
    requires cmd != -1 && Fetched(buf[..], '|', all, |starts|, cmd, save, rest)
    requires Segments(buf[..], starts, texts) && EndBefore(starts, texts, cmd)
    modifies buf
    ensures |starts'| == |starts| + 1 && texts' == texts + [Trim(all[|starts|])]
    ensures Fetched(buf[..], '|', all, |starts'|, cmd', save', rest')
    ensures Segments(buf[..], starts', texts')
    ensures cmd' != -1 ==> EndBefore(starts', texts', cmd')
  {
    ghost var before, word := buf[..], all[|starts|];
    var trimmed := TrimInPlace(buf, cmd, word);
    SegmentStored(before, buf[..], starts, texts, cmd, word, trimmed, save, rest);
    starts', texts' := starts + [trimmed], texts + [Trim(word)];
    ghost var between := buf[..];
    cmd', save', rest' := StrtokR(buf, save, '|', rest);
    SegmentsKept(between, buf[..], starts', texts', save, save + |rest|);
  }

  /** The bar loop: at most MAX_COMMANDS trimmed segments. */
  method SplitSegments(buf: array<char>, ghost line: string) returns (starts: seq<int>, ghost texts: seq<string>)
    requires CStringAt(buf[..], 0, line)
    modifies buf
    ensures |starts| == |Take(Tokens(line, '|'), MAX_COMMANDS)|
    ensures Segments(buf[..], starts, texts) && Trimmed(texts, Tokens(line, '|'))
  {
    ghost var all := Tokens(line, '|');
    ghost var rest;
    starts, texts := [], [];
    var cmd, save;
    cmd, save, rest := StrtokR(buf, 0, '|', line);
    while cmd != -1 && |starts| < MAX_COMMANDS
      invariant |starts| <= MAX_COMMANDS
      invariant Fetched(buf[..], '|', all, |starts|, cmd, save, rest)
      invariant Trimmed(texts, all)
      invariant Segments(buf[..], starts, texts)
      invariant cmd != -1 ==> EndBefore(starts, texts, cmd)
      decreases MAX_COMMANDS - |starts|
    {
      starts, cmd, save, texts, rest := StoreSegment(buf, starts, cmd, save, all, texts, rest);
    }
  }

  lemma SegmentsKept(b: seq<char>, b': seq<char>, ps: seq<int>, ts: seq<string>, lo: int, hi: int)
    requires Segments(b, ps, ts) && Punched(b, b', lo, hi)
    requires lo <= hi && (lo < hi ==> EndBefore(ps, ts, lo))
    ensures Segments(b', ps, ts)
  {
    forall i | 0 <= i < |ps| ensures CStringAt(b', ps[i], ts[i]) {
      CStringKept(b, b', lo, hi, ps[i], ts[i]);
    }
  }

  /** What a finished parse left in the buffer: `commands[i][k]` points at argument `k` of command `i`. */
  ghost predicate ParsedInto(b: seq<char>, commands: seq<seq<int>>, cs: seq<Command>) {
    && |commands| == |cs|
    && forall i :: 0 <= i < |cs| ==> PointAt(b, commands[i], cs[i], 0, |b|)
  }

  lemma {:induction false} ParseSegmentsAt(segments: seq<string>, i: nat)
    requires i < |segments|
    ensures |ParseSegments(segments)| == |segments| && ParseSegments(segments)[i] == ParseCommand(segments[i])
  {
    if i > 0 {
      ParseSegmentsAt(segments[1..], i - 1);
    }
  }

  /** The first |cs| segments are split into arguments, the others still hold their texts. */
  ghost predicate SplitSoFar(b: seq<char>, commands: seq<seq<int>>, cs: seq<Command>, ps: seq<int>, ts: seq<string>) {
    && |commands| == |cs| <= |ps| && InOrder(ps, ts)
    && (forall i :: 0 <= i < |cs| ==> PointAt(b, commands[i], cs[i], ps[i], ps[i] + |ts[i]|))
    && (forall j :: |cs| <= j < |ps| ==> CStringAt(b, ps[j], ts[j]))
  }

  /** Splitting the next segment leaves the finished commands and the later segments alone. */
  lemma CommandsKept(b: seq<char>, b': seq<char>, commands: seq<seq<int>>, cs: seq<Command>,
                     ps: seq<int>, ts: seq<string>, args: seq<int>, c: Command)
    requires SplitSoFar(b, commands, cs, ps, ts) && |cs| < |ps|
    requires Punched(b, b', ps[|cs|], ps[|cs|] + |ts[|cs|]|)
    requires PointAt(b', args, c, ps[|cs|], ps[|cs|] + |ts[|cs|]|)
    ensures SplitSoFar(b', commands + [args], cs + [c], ps, ts)
  {
    var lo, hi := ps[|cs|], ps[|cs|] + |ts[|cs|]|;
    forall i | 0 <= i < |cs| ensures PointAt(b', commands[i], cs[i], ps[i], ps[i] + |ts[i]|) {
      forall k | 0 <= k < |cs[i]| ensures CStringAt(b', commands[i][k], cs[i][k]) {
        CStringKept(b, b', lo, hi, commands[i][k], cs[i][k]);
      }
    }
    forall j | |cs| < j < |ps| ensures CStringAt(b', ps[j], ts[j]) {
      CStringKept(b, b', lo, hi, ps[j], ts[j]);
    }
  }

  lemma ParsedCommands(line: string, cs: seq<Command>, ts: seq<string>)
    requires |cs| == |ts| == |Take(Tokens(line, '|'), MAX_COMMANDS)| && Trimmed(ts, Tokens(line, '|'))
    requires forall i :: 0 <= i < |cs| ==> cs[i] == Take(Tokens(ts[i], ' '), MAX_ARGS)
    ensures cs == Parse(line)
  {
    var segments := Take(Tokens(line, '|'), MAX_COMMANDS);
    forall i | 0 <= i < |cs| ensures cs[i] == Parse(line)[i] {
      ParseSegmentsAt(segments, i);
    }
  }

  /** The parsing part of `main`: when it is done, every argument pointer still reads as its argument. */
  method ParseLine(buf: array<char>, ghost line: string) returns (commands: seq<seq<int>>)
    requires CStringAt(buf[..], 0, line)
    modifies buf
    ensures ParsedInto(buf[..], commands, Parse(line))
  {
    ghost var texts;
    var starts;
    starts, texts := SplitSegments(buf, line);
    ghost var cs: seq<Command> := [];
    commands := [];
    for i := 0 to |starts|
      invariant |commands| == |cs| == i
      invariant SplitSoFar(buf[..], commands, cs, starts, texts)
      invariant forall j :: 0 <= j < i ==> cs[j] == Take(Tokens(texts[j], ' '), MAX_ARGS)
    {
      ghost var before := buf[..];
      var args := SplitArguments(buf, starts[i], texts[i]);
      CommandsKept(before, buf[..], commands, cs, starts, texts, args, Take(Tokens(texts[i], ' '), MAX_ARGS));
      commands, cs := commands + [args], cs + [Take(Tokens(texts[i], ' '), MAX_ARGS)];
    }
    ParsedCommands(line, cs, texts);
  }
}
