/**
 * The bootloader control block: options printed into a fixed field, one per line after "recovery",
 * and parsed back from it after a reboot.
 */
module ControlBlock {
  import opened Bytes

  const NUL: char := '\0'
  const NEWLINE: char := '\n'

  const RECOVERY_SIZE: nat := 768
  const COMMAND_SIZE: nat := 32

  // ----- C strings in fixed fields

  /** The characters before the first NUL. */
  function CString(s: seq<char>): (r: string)
    ensures |r| <= |s| && NUL !in r
    ensures r <= s && (|r| < |s| ==> s[|r|] == NUL)
  {
    if s == [] || s[0] == NUL then [] else [s[0]] + CString(s[1..])
  }

  lemma {:induction false} CStringIs(s: seq<char>, text: string)
    requires NUL !in text && text <= s && (|text| < |s| ==> s[|text|] == NUL)
    ensures CString(s) == text
  {
    if s != [] && text != [] {
      assert s[0] == text[0] && s[0] != NUL by { assert text[0] in text; }
      assert text[1..] <= s[1..];
      CStringIs(s[1..], text[1..]);
    }
  }

  lemma {:induction false} CStringStops(s: seq<char>, k: nat)
    requires k < |s| && s[k] == NUL
    ensures |CString(s)| <= k
  {
    if s[0] != NUL { CStringStops(s[1..], k - 1); }
  }

  /** What fits: the field always ends with a NUL. */
  function Cut(s: string, size: nat): (r: string)
    requires size > 0
    ensures |r| < size && r <= s
  {
    if |s| < size then s else s[..size - 1]
  }

  function Nuls(n: nat): (s: seq<char>)
    ensures |s| == n && forall k :: 0 <= k < n ==> s[k] == NUL
  {
    seq(n, _ => NUL)
  }

  /** A field that holds the text, as far as it fits, and NULs. */
  function FieldOf(text: string, size: nat): (f: seq<char>)
    requires size > 0
    ensures |f| == size
  {
    Cut(text, size) + Nuls(size - |Cut(text, size)|)
  }

  lemma FieldReads(text: string, size: nat)
    requires size > 0 && NUL !in text
    ensures CString(FieldOf(text, size)) == Cut(text, size)
  {
    var c := Cut(text, size);
    forall x | x in c ensures x != NUL { assert x in text; }
    CStringIs(FieldOf(text, size), c);
  }

  lemma CutAppend(a: string, b: string, size: nat)
    requires size > 0
    ensures Cut(Cut(a, size) + b, size) == Cut(a + b, size)
  {}

  // ----- printing options

  /** An option's line, up to its first NUL; an option that ends with a newline gets no other. */
  function Line(s: string): (r: string)
    requires s != ""
    ensures NUL !in r
  {
    if s[|s| - 1] == NEWLINE then CString(s) else CString(s) + [NEWLINE]
  }

  function Body(options: seq<string>): (r: string)
    requires forall k :: 0 <= k < |options| ==> options[k] != ""
    ensures NUL !in r
  {
    if options == [] then "" else Line(options[0]) + Body(options[1..])
  }

  const HEADER := "recovery\n"

  function MessageText(options: seq<string>): (r: string)
    requires forall k :: 0 <= k < |options| ==> options[k] != ""
  {
    HEADER + Body(options)
  }

  /** Options that survive as lines. */
  predicate Plain(s: string) { s != "" && NEWLINE !in s && NUL !in s }

  predicate AllPlain(options: seq<string>) { forall k :: 0 <= k < |options| ==> Plain(options[k]) }

  // ----- parsing lines

  /** android::base::Split at newlines. */
  function Split(s: string): (r: seq<string>)
    ensures r != []
  {
    if s == "" then [""]
    else if s[0] == NEWLINE then [""] + Split(s[1..])
    else var rest := Split(s[1..]); [[s[0]] + rest[0]] + rest[1..]
  }

  /** Leave out empty tokens and tokens that start with a NUL. */
  function Kept(tokens: seq<string>): (r: seq<string>) {
    if tokens == [] then []
    else if tokens[0] != "" && tokens[0][0] != NUL then [tokens[0]] + Kept(tokens[1..])
    else Kept(tokens[1..])
  }

  /** The options in a recovery field, as get_args takes them from it. */
  function Parse(field: seq<char>): (r: seq<string>)
    requires |field| == RECOVERY_SIZE
  {
    var tokens := Split(CString(field[RECOVERY_SIZE - 1 := NUL]));
    if tokens[0] == "recovery" then Kept(tokens[1..]) else []
  }

  /** The field after update_bootloader_message_in_struct. */
  function Written(options: seq<string>): (f: seq<char>)
    requires forall k :: 0 <= k < |options| ==> options[k] != ""
    ensures |f| == RECOVERY_SIZE
  {
    FieldOf(MessageText(options), RECOVERY_SIZE)
  }

  lemma {:induction false} SplitLine(a: string, b: string)
    requires NEWLINE !in a
    ensures Split(a + [NEWLINE] + b) == [a] + Split(b)
    ensures Split(a) == [a]
  {
    if a == "" {
      assert a + [NEWLINE] + b == [NEWLINE] + b;
    } else {
      var s := a + [NEWLINE] + b;
      assert a[0] in a;
      assert s[0] == a[0] && s[1..] == a[1..] + [NEWLINE] + b;
      SplitLine(a[1..], b);
      assert [a[0]] + a[1..] == a;
    }
  }

  // ----- what truncation leaves

  /** The options that the first `n` characters of the body still hold. */
  function Truncated(options: seq<string>, n: nat): (r: seq<string>)
    decreases |options|
  {
    if options == [] || n == 0 then []
    else
      var o := options[0];
      if n <= |o| then [o[..n]] else [o] + Truncated(options[1..], n - |o| - 1)
  }

  lemma {:induction false} BodyCut(options: seq<string>, n: nat)
    requires AllPlain(options) && options != [] && n <= |Body(options)|
    ensures var o := options[0];
            && |Body(options)| == |o| + 1 + |Body(options[1..])|
            && if n <= |o| then Body(options)[..n] == o[..n]
               else Body(options)[..n] == o + [NEWLINE] + Body(options[1..])[..n - |o| - 1]
  {
    var o := options[0];
    assert Plain(o) && o[|o| - 1] in o;
    CStringIs(o, o);
    assert Body(options) == o + [NEWLINE] + Body(options[1..]);
  }

  lemma PlainPart(o: string, n: nat)
    requires Plain(o) && 0 < n <= |o|
    ensures Plain(o[..n])
  {
    forall x | x in o[..n] ensures x in o {}
  }

  /** Parsing a truncated body gives the truncated options. */
  lemma {:induction false} TruncatedParse(options: seq<string>, n: nat)
    requires AllPlain(options) && n <= |Body(options)|
    ensures Kept(Split(Body(options)[..n])) == Truncated(options, n)
    ensures AllPlain(Truncated(options, n))
    decreases |options|
  {
    hide Split, Body;
    if options == [] || n == 0 {
      assert options == [] ==> Body(options) == "" by { if options == [] { NoBody(); } }
      assert Body(options)[..n] == "";
      SplitNothing();
    } else {
      var o := options[0];
      BodyCut(options, n);
      if n <= |o| {
        PlainPart(o, n);
        PlainToken(o[..n], "");
        NoTokens(o[..n]);
      } else {
        var rest := Body(options[1..])[..n - |o| - 1];
        PlainToken(o, rest);
        TruncatedParse(options[1..], n - |o| - 1);
      }
    }
  }

  lemma SplitNothing()
    ensures Split("") == [""] && Kept(Split("")) == []
  {
    assert [""][1..] == [];
  }

  lemma NoTokens(t: string)
    requires Plain(t)
    ensures Kept([t]) == [t]
  {
    assert t[0] in t;
    var one := [t];
    assert one[1..] == [];
  }

  /** A plain first line is kept. */
  lemma PlainToken(t: string, rest: string)
    requires Plain(t)
    ensures Split(t) == [t]
    ensures Kept(Split(t + [NEWLINE] + rest)) == [t] + Kept(Split(rest))
  {
    hide Split;
    SplitLine(t, rest);
    assert t[0] in t;
    assert ([t] + Split(rest))[1..] == Split(rest);
  }

  /** Printing the truncated options again gives the same characters, and completes the last line. */
  lemma {:induction false} TruncatedBody(options: seq<string>, n: nat)
    requires AllPlain(options) && n <= |Body(options)|
    ensures AllPlain(Truncated(options, n))
    ensures var c, again := Body(options)[..n], Body(Truncated(options, n));
            again == c || (again == c + [NEWLINE] && n < |Body(options)|)
    decreases |options|
  {
    hide Body, Split, Kept;
    TruncatedParse(options, n);
    if options == [] || n == 0 {
      NoBody();
      assert Body(options)[..n] == "" by { if options == [] { NoBody(); } }
    } else {
      var o := options[0];
      BodyCut(options, n);
      var r := Truncated(options, n);
      BodyCut(r, 0);
      BodyHead(r);
      if n <= |o| {
        assert r == [o[..n]];
        assert r[1..] == [];
        NoBody();
        assert o[..n] + [NEWLINE] + "" == o[..n] + [NEWLINE];
      } else {
        TruncatedBody(options[1..], n - |o| - 1);
        assert r[0] == o && r[1..] == Truncated(options[1..], n - |o| - 1);
        var c' := Body(options[1..])[..n - |o| - 1];
        ConcatAssoc(o + [NEWLINE], c', [NEWLINE]);
      }
    }
  }

  lemma BodyHead(options: seq<string>)
    requires AllPlain(options) && options != []
    ensures Body(options) == options[0] + [NEWLINE] + Body(options[1..])
  {
    var o := options[0];
    assert Plain(o) && o[|o| - 1] in o;
    CStringIs(o, o);
  }

  /** Nothing is lost exactly when at most the last newline is cut off. */
  lemma {:induction false} TruncatedIsAll(options: seq<string>, n: nat)
    requires AllPlain(options) && n <= |Body(options)|
    ensures Truncated(options, n) == options <==> n + 1 >= |Body(options)|
    decreases |options|
  {
    if options != [] && n > 0 {
      var o := options[0];
      BodyCut(options, n);
      if n > |o| {
        TruncatedIsAll(options[1..], n - |o| - 1);
        assert Truncated(options, n)[1..] == Truncated(options[1..], n - |o| - 1);
        assert options == [o] + options[1..];
      } else {
        RestOfBody(options);
        if |options| == 1 && n == |o| {
          assert o[..n] == o;
          assert options == [o];
        }
      }
    } else if options != [] {
      BodyCut(options, 0);
      assert Plain(options[0]);
    }
  }

  lemma RestOfBody(options: seq<string>)
    requires AllPlain(options) && options != []
    ensures |options| == 1 ==> Body(options[1..]) == ""
    ensures |options| > 1 ==> |Body(options[1..])| >= 2
  {
    if |options| == 1 {
      assert options[1..] == [];
    } else {
      assert AllPlain(options[1..]) && options[1..] != [];
      BodyCut(options[1..], 0);
      assert Plain(options[1..][0]);
    }
  }

  // ----- round trips

  /** How much of the body fits. */
  function Room(options: seq<string>): (n: nat)
    requires forall k :: 0 <= k < |options| ==> options[k] != ""
    ensures n <= |Body(options)|
  {
    if |MessageText(options)| < RECOVERY_SIZE then |Body(options)| else RECOVERY_SIZE - 1 - |HEADER|
  }

  lemma ParsesTruncated(options: seq<string>)
    requires AllPlain(options)
    ensures Parse(Written(options)) == Truncated(options, Room(options))
  {
    hide Truncated, Body, Split;
    var n := Room(options);
    var c := Body(options)[..n];
    var field := Written(options);
    assert Cut(MessageText(options), RECOVERY_SIZE) == HEADER + c;
    assert field[RECOVERY_SIZE - 1 := NUL] == field;
    FieldReads(MessageText(options), RECOVERY_SIZE);
    assert HEADER + c == "recovery" + [NEWLINE] + c;
    SplitLine("recovery", c);
    assert (["recovery"] + Split(c))[1..] == Split(c);
    TruncatedParse(options, n);
  }

  /** Parsing gives the options back if and only if the text fits, but for its last newline. */
  lemma RoundTripIff(options: seq<string>)
    requires AllPlain(options)
    ensures Parse(Written(options)) == options <==> |MessageText(options)| <= RECOVERY_SIZE
  {
    hide Truncated, Body, Parse, Written;
    ParsesTruncated(options);
    TruncatedIsAll(options, Room(options));
  }

  /** Writing what was parsed changes nothing, truncated or not. */
  lemma WriteIsStable(options: seq<string>)
    requires AllPlain(options)
    ensures AllPlain(Parse(Written(options)))
    ensures Written(Parse(Written(options))) == Written(options)
  {
    hide Truncated, Body, Parse;
    ParsesTruncated(options);
    var n := Room(options);
    TruncatedParse(options, n);
    TruncatedBody(options, n);
    var again := Truncated(options, n);
    var c := Body(options)[..n];
    assert Cut(MessageText(options), RECOVERY_SIZE) == HEADER + c;
    if Body(again) != c {
      assert |c| == RECOVERY_SIZE - 1 - |HEADER|;
      assert MessageText(again) == HEADER + c + [NEWLINE];
      assert Cut(MessageText(again), RECOVERY_SIZE) == HEADER + c;
    }
  }

  // ----- any field

  lemma {:induction false} TokensArePlain(s: string)
    requires NUL !in s
    ensures forall k :: 0 <= k < |Split(s)| ==> NEWLINE !in Split(s)[k] && NUL !in Split(s)[k]
  {
    if s != "" {
      assert s[0] in s;
      forall x | x in s[1..] ensures x in s {}
      TokensArePlain(s[1..]);
    }
  }

  lemma {:induction false} KeptArePlain(tokens: seq<string>)
    requires forall k :: 0 <= k < |tokens| ==> NEWLINE !in tokens[k] && NUL !in tokens[k]
    ensures AllPlain(Kept(tokens)) && |Body(Kept(tokens))| <= Length(tokens)
  {
    if tokens != [] {
      KeptArePlain(tokens[1..]);
      if tokens[0] != "" {
        assert tokens[0][0] in tokens[0];
        var r := Kept(tokens);
        assert r[1..] == Kept(tokens[1..]);
        BodyCut(r, 0);
      }
    }
  }

  /** The length of the tokens, each with its newline. */
  function Length(tokens: seq<string>): (n: nat) {
    if tokens == [] then 0 else |tokens[0]| + 1 + Length(tokens[1..])
  }

  lemma {:induction false} SplitLength(s: string)
    ensures Length(Split(s)) == |s| + 1
  {
    if s != "" {
      SplitLength(s[1..]);
      var r := Split(s);
      if s[0] == NEWLINE { assert r[1..] == Split(s[1..]); } else { assert r[1..] == Split(s[1..])[1..]; }
    }
  }

  /** Whatever a field holds, its options survive being written back and parsed again. */
  lemma ParseIsStable(field: seq<char>)
    requires |field| == RECOVERY_SIZE
    ensures AllPlain(Parse(field)) && Parse(Written(Parse(field))) == Parse(field)
    ensures |MessageText(Parse(field))| <= RECOVERY_SIZE
  {
    hide Split, Written, Body;
    var s := CString(field[RECOVERY_SIZE - 1 := NUL]);
    var tokens := Split(s);
    TokensArePlain(s);
    SplitLength(s);
    CStringStops(field[RECOVERY_SIZE - 1 := NUL], RECOVERY_SIZE - 1);
    if tokens[0] == "recovery" {
      KeptArePlain(tokens[1..]);
      assert Length(tokens) == |"recovery"| + 1 + Length(tokens[1..]);
    } else {
      assert Body([]) == "" by { NoBody(); }
    }
    RoundTripIff(Parse(field));
  }

  lemma NoBody()
    ensures Body([]) == ""
  {}

  // ----- the text of a field, written out

  /** Lines, each after a newline. */
  function Listed(lines: seq<string>): (r: string) {
    if lines == [] then "" else ['\n'] + lines[0] + Listed(lines[1..])
  }

  function Filled(lines: seq<string>): (r: seq<string>) {
    if lines == [] then [] else (if lines[0] == "" then [] else [lines[0]]) + Filled(lines[1..])
  }

  ghost predicate AreLines(lines: seq<string>) {
    forall k :: 0 <= k < |lines| ==> '\n' !in lines[k] && '\0' !in lines[k]
  }

  lemma {:induction false} ListedSplits(head: string, lines: seq<string>)
    requires NEWLINE !in head && AreLines(lines)
    ensures Split(head + Listed(lines)) == [head] + lines
    ensures Kept(lines) == Filled(lines)
    ensures NUL !in Listed(lines)
    decreases |lines|
  {
    hide Split;
    if lines == [] {
      assert head + "" == head;
      SplitLine(head, "");
    } else {
      var (first, more) := (lines[0], lines[1..]);
      ListedSplits(first, more);
      assert head + Listed(lines) == head + [NEWLINE] + (first + Listed(more));
      SplitLine(head, first + Listed(more));
      if first != "" { assert first[0] in first; }
    }
  }

  /** A field that starts with the word recovery, and then holds lines up to a NUL or up to its end. */
  lemma ParseReads(field: seq<char>, lines: seq<string>)
    requires |field| == 768 && AreLines(lines)
    requires var text := "recovery" + Listed(lines);
             text <= field[..767] && (|text| < 767 ==> field[|text|] == '\0')
    ensures Parse(field) == Filled(lines)
  {
    hide Split, Listed, Filled;
    var text := "recovery" + Listed(lines);
    ListedSplits("recovery", lines);
    var closed := field[RECOVERY_SIZE - 1 := NUL];
    assert closed[..767] == field[..767];
    assert text <= closed;
    CStringIs(closed, text);
    assert (["recovery"] + lines)[1..] == lines;
  }

  lemma {:induction false} FirstToken(s: string)
    ensures Split(s)[0] <= s && (|Split(s)[0]| < |s| ==> s[|Split(s)[0]|] == NEWLINE)
    ensures |Split(s)[0]| == |s| ==> |Split(s)| == 1
  {
    if s != "" && s[0] != NEWLINE { FirstToken(s[1..]); }
  }

  /** No other field gives any options. */
  lemma ParseNeedsHeader(field: seq<char>)
    requires |field| == 768
    ensures Parse(field) != [] ==> field[..9] == "recovery\n"
  {
    hide Split;
    var s := CString(field[RECOVERY_SIZE - 1 := NUL]);
    FirstToken(s);
    if Parse(field) != [] { assert s[..9] == "recovery\n"; }
  }

  lemma {:induction false} BodyIsListed(options: seq<string>)
    requires AllPlain(options)
    ensures [NEWLINE] + Body(options) == Listed(options) + [NEWLINE]
  {
    hide Body;
    if options == [] {
      NoBody();
    } else {
      BodyHead(options);
      BodyIsListed(options[1..]);
      var o := options[0];
      assert [NEWLINE] + (o + [NEWLINE] + Body(options[1..])) == [NEWLINE] + o + ([NEWLINE] + Body(options[1..]));
      ConcatAssoc([NEWLINE] + o, Listed(options[1..]), [NEWLINE]);
    }
  }

  /** The field that is written: the lines as far as 767 characters hold them, and NULs. */
  lemma WrittenIs(options: seq<string>)
    requires AllPlain(options)
    ensures var (f, text) := (Written(options), "recovery" + Listed(options) + "\n");
            |f| == 768 && forall k :: 0 <= k < 768 ==> f[k] == if k < 767 && k < |text| then text[k] else '\0'
  {
    hide Body, Listed;
    BodyIsListed(options);
    assert HEADER + Body(options) == "recovery" + ([NEWLINE] + Body(options));
    assert MessageText(options) == "recovery" + Listed(options) + "\n";
  }

  // ----- the code

  /** strlcpy into a field of NULs. */
  method Strlcpy(dst: array<char>, src: string)
    requires dst.Length > 0 && dst[..] == Nuls(dst.Length)
    modifies dst
    ensures dst[..] == FieldOf(CString(src), dst.Length)
  {
    var i := 0;
    ghost var c := CString(src);
    while i < dst.Length - 1 && i < |src| && src[i] != NUL
      invariant 0 <= i <= |c| && i < dst.Length
      invariant forall k :: 0 <= k < i ==> dst[k] == c[k]
      invariant forall k :: i <= k < dst.Length ==> dst[k] == NUL
    {
      assert i < |c|;
      dst[i] := src[i];
      i := i + 1;
    }
    dst[i] := NUL;
    assert Cut(c, dst.Length) == c[..i];
  }

  /** strlcat to a field that holds `text`. */
  method Strlcat(dst: array<char>, src: string, ghost text: string)
    requires dst.Length > 0 && NUL !in text && dst[..] == FieldOf(text, dst.Length)
    modifies dst
    ensures dst[..] == FieldOf(text + CString(src), dst.Length)
  {
    hide Cut, CString;
    ghost var held := Cut(text, dst.Length);
    forall k | 0 <= k < |held| ensures dst[k] != NUL { assert dst[..][k] == held[k] && held[k] in text; }
    var length := 0;
    while length < dst.Length && dst[length] != NUL
      invariant 0 <= length <= |held|
    {
      assert dst[..][length] != NUL;
      length := length + 1;
    }
    assert length == |held|;
    CutAppend(text, CString(src), dst.Length);
    Append(dst, length, src, held);
  }

  /** Copy what fits behind the first `length` characters. */
  method Append(dst: array<char>, length: nat, src: string, ghost held: string)
    requires length == |held| < dst.Length && dst[..] == held + Nuls(dst.Length - length)
    modifies dst
    ensures dst[..] == FieldOf(held + CString(src), dst.Length)
  {
    hide Cut;
    ghost var c := CString(src);
    var i := 0;
    while length + i < dst.Length - 1 && i < |src| && src[i] != NUL
      invariant 0 <= i <= |c| && length + i < dst.Length
      invariant dst[..length + i] == held + c[..i]
      invariant forall k :: length + i <= k < dst.Length ==> dst[k] == NUL
    {
      assert i < |c|;
      dst[length + i] := src[i];
      assert dst[..length + i + 1] == dst[..length + i] + [c[i]];
      i := i + 1;
    }
    dst[length + i] := NUL;
    CutAt(held, c, i, dst.Length);
  }

  lemma CutAt(held: string, c: string, i: nat, size: nat)
    requires i <= |c| && |held| + i < size && (|held| + i + 1 == size || i == |c|)
    ensures Cut(held + c, size) == held + c[..i]
  {}

  /** The command and recovery fields of struct bootloader_message; the others stay as they are. */
  class BootloaderMessage {
    const command: array<char>
    const recovery: array<char>

    ghost predicate Valid()
      reads this
    {
      command.Length == COMMAND_SIZE && recovery.Length == RECOVERY_SIZE && command != recovery
    }

    constructor ()
      ensures Valid() && fresh(command) && fresh(recovery)
      ensures command[..] == Nuls(COMMAND_SIZE) && recovery[..] == Nuls(RECOVERY_SIZE)
    {
      command := new char[COMMAND_SIZE](_ => NUL);
      recovery := new char[RECOVERY_SIZE](_ => NUL);
    }

    static method Clear(a: array<char>)
      modifies a
      ensures a[..] == Nuls(a.Length)
    {
      for k := 0 to a.Length
        invariant forall j :: 0 <= j < k ==> a[j] == NUL
      {
        a[k] := NUL;
      }
    }

    /** update_bootloader_message_in_struct. */
    method Update(options: seq<string>)
      requires Valid() && forall k :: 0 <= k < |options| ==> options[k] != ""
      modifies command, recovery
      ensures recovery[..] == Written(options)
      ensures command[..] == FieldOf("boot-recovery", COMMAND_SIZE)
    {
      hide FieldOf, CString;
      Clear(command);
      Clear(recovery);
      Strlcpy(command, "boot-recovery");
      assert CString("boot-recovery") == "boot-recovery" by { CStringIs("boot-recovery", "boot-recovery"); }
      Strlcpy(recovery, HEADER);
      assert CString(HEADER) == HEADER by { CStringIs(HEADER, HEADER); }
      assert options[..0] == [] && HEADER + "" == HEADER;
      for k := 0 to |options|
        invariant recovery[..] == FieldOf(MessageText(options[..k]), RECOVERY_SIZE)
        invariant command[..] == FieldOf("boot-recovery", COMMAND_SIZE)
      {
        var s := options[k];
        ghost var text := MessageText(options[..k]);
        BodySnoc(options[..k], s);
        assert options[..k + 1] == options[..k] + [s];
        Strlcat(recovery, s, text);
        if s[|s| - 1] != NEWLINE {
          assert NUL !in text + CString(s);
          Strlcat(recovery, [NEWLINE], text + CString(s));
          assert CString([NEWLINE]) == [NEWLINE] by { CStringIs([NEWLINE], [NEWLINE]); }
          ConcatAssoc(text, CString(s), [NEWLINE]);
        }
        ConcatAssoc(HEADER, Body(options[..k]), Line(s));
      }
      assert options[..|options|] == options;
    }

    /** The part of get_args that reads the block; the last character is made a NUL. */
    method Arguments() returns (args: seq<string>)
      requires Valid()
      modifies recovery
      ensures args == Parse(old(recovery[..]))
    {
      hide Split, CString;
      ghost var field := recovery[..];
      recovery[RECOVERY_SIZE - 1] := NUL;
      assert recovery[..] == field[RECOVERY_SIZE - 1 := NUL];
      var tokens := Split(CString(recovery[..]));
      args := [];
      if tokens[0] == "recovery" {
        ghost var all := tokens[1..];
        for i := 1 to |tokens|
          invariant args + Kept(tokens[i..]) == Kept(all)
        {
          assert tokens[i..][1..] == tokens[i + 1..];
          if tokens[i] != "" && tokens[i][0] != NUL {
            ConcatAssoc(args, [tokens[i]], Kept(tokens[i + 1..]));
            args := args + [tokens[i]];
          }
        }
        assert tokens[|tokens|..] == [];
      }
    }
  }

  lemma {:induction false} BodySnoc(options: seq<string>, s: string)
    requires s != "" && forall k :: 0 <= k < |options| ==> options[k] != ""
    ensures Body(options + [s]) == Body(options) + Line(s)
  {
    hide Line;
    if options == [] {
      assert (options + [s])[1..] == [];
      assert Line(s) + "" == Line(s) && "" + Line(s) == Line(s);
    } else {
      BodySnoc(options[1..], s);
      assert (options + [s])[1..] == options[1..] + [s];
      ConcatAssoc(Line(options[0]), Body(options[1..]), Line(s));
    }
  }
}
