/**
 * The retry protocol across reboots: the update package and the retry counter travel in the
 * bootloader control block, through power losses at any point, until recovery finishes.
 */
module RetryProtocol {
  import opened Bytes
  import opened Text
  import opened ControlBlock

  const RETRY_LIMIT: nat := 4
  const COUNT_PREFIX := "--retry_count"
  const COUNT_OPTION := "--retry_count="
  const PACKAGE_OPTION := "--update_package="

  /** The recovery field of the control block, and the content of COMMAND_FILE. */
  datatype State = State(field: seq<char>, commandFile: Option<string>)

  predicate Valid(s: State) { |s.field| == RECOVERY_SIZE }

  // ----- arguments

  function FileTokens(s: State): (r: seq<string>) {
    if s.commandFile.None? then [] else Kept(Split(s.commandFile.value))
  }

  /** The arguments after args[0]: from the control block, else from the command file. */
  function Options(s: State): (r: seq<string>)
    requires Valid(s)
  {
    var options := Parse(s.field);
    if options != [] then options else FileTokens(s)
  }

  predicate IsNumber(s: string) {
    s != "" && (forall k :: 0 <= k < |s| ==> IsDigit(s[k])) && DecimalValue(s) < TWO_31
  }

  /** What getopt_long makes of an option: the value of a retry count that can be parsed. */
  function CountIn(o: string): (r: Option<nat>) {
    if COUNT_OPTION <= o && IsNumber(o[|COUNT_OPTION|..]) then Some(DecimalValue(o[|COUNT_OPTION|..])) else None
  }

  function PackageIn(o: string): (r: Option<string>) {
    if PACKAGE_OPTION <= o then Some(o[|PACKAGE_OPTION|..]) else None
  }

  /** The last one wins; the counter starts at zero. */
  function Count(options: seq<string>): (n: nat) {
    if options == [] then 0
    else match CountIn(options[|options| - 1])
      case Some(n) => n
      case None => Count(options[..|options| - 1])
  }

  function Package(options: seq<string>): (r: Option<string>) {
    if options == [] then None
    else match PackageIn(options[|options| - 1])
      case Some(p) => Some(p)
      case None => Package(options[..|options| - 1])
  }

  function WithoutCount(options: seq<string>): (r: seq<string>) {
    if options == [] then []
    else WithoutCount(options[..|options| - 1]) +
         if COUNT_PREFIX <= options[|options| - 1] then [] else [options[|options| - 1]]
  }

  /** What set_retry_bootloader_message writes; its `args` include args[0]. */
  function RetryOptions(argv0: string, options: seq<string>, count: nat): (r: seq<string>) {
    WithoutCount([argv0] + options) + [COUNT_OPTION + Decimal(count)]
  }

  // ----- one boot

  datatype Status = Success | Retry | Failure

  /** Where the power is lost, if it is. */
  datatype Cut = BeforeArgs | AfterArgs | AfterFirst | AfterRetry | Never

  datatype Fate = Fate(cut: Cut, skipped: bool, status: Status, rebooted: bool)

  datatype Outcome = PowerLost | RetryReboot | Finished

  function Finish(s: State): (r: (State, Outcome)) {
    (State(Nuls(RECOVERY_SIZE), None), Finished)
  }

  predicate Writable(options: seq<string>) { forall k :: 0 <= k < |options| ==> options[k] != "" }

  /** recovery from get_args() to finish_recovery(), with an update package. */
  function Boot(s: State, argv0: string, f: Fate): (r: (State, Outcome))
    requires Valid(s) && Writable(Options(s)) && argv0 != ""
    ensures Valid(r.0)
  {
    var options := Options(s);
    var s1 := s.(field := Written(options));
    if f.cut == BeforeArgs then (s, PowerLost)
    else if f.cut == AfterArgs then (s1, PowerLost)
    else if Package(options).None? || f.skipped then Finish(s1)
    else
      var count := Count(options);
      WritableRetry(argv0, options, 1);
      WritableRetry(argv0, options, count + 1);
      var s2 := if count == 0 then s1.(field := Written(RetryOptions(argv0, options, 1))) else s1;
      if f.cut == AfterFirst then (s2, PowerLost)
      else if f.status == Retry && count < RETRY_LIMIT then
        var s3 := s2.(field := Written(RetryOptions(argv0, options, count + 1)));
        if f.cut == AfterRetry then (s3, PowerLost)
        else if f.rebooted then (s3, RetryReboot) else Finish(s3)
      else Finish(s2)
  }

  lemma {:induction false} WritableWithout(options: seq<string>)
    requires Writable(options)
    ensures Writable(WithoutCount(options))
  {
    if options != [] { WritableWithout(options[..|options| - 1]); }
  }

  lemma WritableRetry(argv0: string, options: seq<string>, count: nat)
    requires Writable(options) && argv0 != ""
    ensures Writable(RetryOptions(argv0, options, count))
  {
    WritableWithout([argv0] + options);
  }

  // ----- what the options of a retry say

  lemma {:induction false} WithoutIsPlain(options: seq<string>)
    requires AllPlain(options)
    ensures AllPlain(WithoutCount(options))
  {
    if options != [] { WithoutIsPlain(options[..|options| - 1]); }
  }

  lemma CountTextIsPlain(count: nat)
    ensures Plain(COUNT_OPTION + Decimal(count))
  {
    var s := COUNT_OPTION + Decimal(count);
    forall c | c in s ensures c != NEWLINE && c != NUL {
      var k :| 0 <= k < |s| && s[k] == c;
      if k >= |COUNT_OPTION| { assert c == Decimal(count)[k - |COUNT_OPTION|]; }
    }
  }

  lemma CountTextReads(count: nat)
    requires count < TWO_31
    ensures CountIn(COUNT_OPTION + Decimal(count)) == Some(count)
  {
    var s := COUNT_OPTION + Decimal(count);
    assert s[|COUNT_OPTION|..] == Decimal(count);
    DecimalRoundTrip(count);
  }

  /** The new counter is the one that counts. */
  lemma RetryCount(argv0: string, options: seq<string>, count: nat)
    requires count < TWO_31
    ensures Count(RetryOptions(argv0, options, count)) == count
  {
    hide WithoutCount, CountIn;
    CountTextReads(count);
    var r := RetryOptions(argv0, options, count);
    assert r[|r| - 1] == COUNT_OPTION + Decimal(count);
  }

  lemma CountIsNotPackage(o: string)
    requires COUNT_PREFIX <= o
    ensures PackageIn(o) == None
  {
    assert o[2] == 'r';
    ThirdLetter(o);
  }

  lemma ThirdLetter(o: string)
    ensures PACKAGE_OPTION <= o ==> |o| > 2 && o[2] == 'u'
  {}

  lemma CountHasPrefix(o: string)
    ensures COUNT_OPTION <= o ==> COUNT_PREFIX <= o
  {
    if COUNT_OPTION <= o {
      assert o[..|COUNT_PREFIX|] == COUNT_OPTION[..|COUNT_PREFIX|] == COUNT_PREFIX;
    }
  }

  lemma {:induction false} WithoutKeepsPackage(options: seq<string>)
    ensures Package(WithoutCount(options)) == Package(options)
  {
    hide PackageIn;
    if options != [] {
      var init, last := options[..|options| - 1], options[|options| - 1];
      WithoutKeepsPackage(init);
      var r := WithoutCount(options);
      if COUNT_PREFIX <= last {
        CountIsNotPackage(last);
        assert r == WithoutCount(init);
      } else {
        assert r[..|r| - 1] == WithoutCount(init);
      }
    }
  }

  lemma {:induction false} PackageBehind(argv0: string, options: seq<string>)
    requires Package(options).Some?
    ensures Package([argv0] + options) == Package(options)
  {
    hide PackageIn;
    var r := [argv0] + options;
    assert r[|r| - 1] == options[|options| - 1] && r[..|r| - 1] == [argv0] + options[..|options| - 1];
    if PackageIn(options[|options| - 1]).None? { PackageBehind(argv0, options[..|options| - 1]); }
  }

  lemma RetryPackage(argv0: string, options: seq<string>, count: nat)
    requires Package(options).Some?
    ensures Package(RetryOptions(argv0, options, count)) == Package(options)
  {
    hide WithoutCount, PackageIn;
    var r := RetryOptions(argv0, options, count);
    var last := COUNT_OPTION + Decimal(count);
    assert COUNT_PREFIX <= last;
    CountIsNotPackage(last);
    assert r[..|r| - 1] == WithoutCount([argv0] + options) && r[|r| - 1] == last;
    WithoutKeepsPackage([argv0] + options);
    PackageBehind(argv0, options);
  }

  // ----- room in the field

  /** The characters that set_retry_bootloader_message adds for the counter. */
  const COUNT_ROOM: nat := 16

  /** The options fit now and after all the retries that are left; each adds args[0] once more. */
  ghost predicate Roomy(argv0: string, options: seq<string>) {
    && Plain(argv0) && AllPlain(options) && |MessageText(options)| <= RECOVERY_SIZE
    && (Count(options) < RETRY_LIMIT ==>
          && AllPlain(WithoutCount(options))
          && |MessageText(WithoutCount(options))| + (RETRY_LIMIT - Count(options)) * (|argv0| + 1) + COUNT_ROOM <=
             RECOVERY_SIZE)
  }

  lemma BodyLength(options: seq<string>, s: string)
    requires AllPlain(options) && Plain(s)
    ensures AllPlain(options + [s]) && |MessageText(options + [s])| == |MessageText(options)| + |s| + 1
  {
    BodySnoc(options, s);
    assert s[|s| - 1] in s;
    CStringIs(s, s);
  }

  lemma {:induction false} BodyLengthFront(s: string, options: seq<string>)
    requires AllPlain(options) && Plain(s)
    ensures AllPlain([s] + options) && |MessageText([s] + options)| == |MessageText(options)| + |s| + 1
  {
    var r := [s] + options;
    assert r[1..] == options;
    assert s[|s| - 1] in s;
    CStringIs(s, s);
  }

  lemma {:induction false} WithoutFront(argv0: string, options: seq<string>)
    ensures WithoutCount([argv0] + options) == (if COUNT_PREFIX <= argv0 then [] else [argv0]) + WithoutCount(options)
  {
    var r := [argv0] + options;
    if options == [] {
      assert r == [argv0] && r[..0] == [];
    } else {
      var init, last := options[..|options| - 1], options[|options| - 1];
      assert r[|r| - 1] == last && r[..|r| - 1] == [argv0] + init;
      WithoutFront(argv0, init);
    }
  }

  lemma {:induction false} WithoutTwice(options: seq<string>)
    ensures WithoutCount(WithoutCount(options)) == WithoutCount(options)
  {
    if options != [] {
      var init, last := options[..|options| - 1], options[|options| - 1];
      WithoutTwice(init);
      var r := WithoutCount(options);
      if COUNT_PREFIX <= last {
        assert r == WithoutCount(init);
      } else {
        assert r[..|r| - 1] == WithoutCount(init);
      }
    }
  }

  lemma WithoutOfRetry(argv0: string, options: seq<string>, count: nat)
    ensures WithoutCount(RetryOptions(argv0, options, count)) == WithoutCount([argv0] + options)
  {
    var r := RetryOptions(argv0, options, count);
    var w := WithoutCount([argv0] + options);
    assert COUNT_PREFIX <= COUNT_OPTION + Decimal(count);
    assert r[..|r| - 1] == w && r[|r| - 1] == COUNT_OPTION + Decimal(count);
    assert WithoutCount(r) == WithoutCount(w) + [];
    WithoutTwice([argv0] + options);
  }

  /** A retry's options fit, and leave room for the retries after it. */
  lemma RetryIsRoomy(argv0: string, options: seq<string>, count: nat)
    requires Roomy(argv0, options) && Count(options) < count <= RETRY_LIMIT
    ensures Roomy(argv0, RetryOptions(argv0, options, count))
  {
    hide Body, WithoutCount, Count, Decimal;
    var w0 := WithoutCount(options);
    var w := WithoutCount([argv0] + options);
    WithoutFront(argv0, options);
    assert AllPlain(w) && |MessageText(w)| <= |MessageText(w0)| + |argv0| + 1 by {
      BodyLengthFront(argv0, w0);
      assert [] + w0 == w0;
    }
    CountTextIsPlain(count);
    BodyLength(w, COUNT_OPTION + Decimal(count));
    assert |Decimal(count)| == 1 by { OneDigit(count); }
    RetryCount(argv0, options, count);
    WithoutOfRetry(argv0, options, count);
    var n := RETRY_LIMIT - Count(options);
    assert (n - 1) * (|argv0| + 1) + (|argv0| + 1) == n * (|argv0| + 1);
    Shorter(RETRY_LIMIT - count, n - 1, |argv0| + 1);
  }

  lemma OneDigit(n: nat)
    requires n < 10
    ensures |Decimal(n)| == 1
  {}

  lemma Shorter(a: nat, b: nat, c: nat)
    requires a <= b
    ensures a * c <= b * c
  {}

  // ----- one boot keeps the update

  /** The next boot finds what was written. */
  lemma WrittenIsFound(s: State, options: seq<string>)
    requires Valid(s) && AllPlain(options) && options != [] && |MessageText(options)| <= RECOVERY_SIZE
    ensures Options(s.(field := Written(options))) == options
  {
    hide Parse, Written, Body;
    RoundTripIff(options);
  }

  lemma BootKeepsUpdate(s: State, argv0: string, f: Fate)
    requires Valid(s) && Roomy(argv0, Options(s)) && Package(Options(s)).Some?
    ensures var (s', outcome) := Boot(s, argv0, f);
            outcome != Finished ==>
              && Roomy(argv0, Options(s')) && Package(Options(s')) == Package(Options(s))
              && Count(Options(s)) <= Count(Options(s'))
              && (Count(Options(s')) <= Count(Options(s)) || Count(Options(s')) <= RETRY_LIMIT)
              && (outcome == RetryReboot ==> Count(Options(s')) == Count(Options(s)) + 1)
  {
    hide Parse, Written, RetryOptions, Count, Package, Roomy, Body, Options;
    var options := Options(s);
    assert options != [] by { HasPackage(options); }
    RoomyParts(argv0, options);
    var s1 := s.(field := Written(options));
    WrittenIsFound(s, options);
    var count := Count(options);
    if count < RETRY_LIMIT {
      var r := RetryOptions(argv0, options, count + 1);
      RetryIsRoomy(argv0, options, count + 1);
      RoomyParts(argv0, r);
      RetryCount(argv0, options, count + 1);
      RetryPackage(argv0, options, count + 1);
      assert r != [] by { HasPackage(r); }
      WrittenIsFound(s, r);
      assert State(Written(r), s.commandFile) == s.(field := Written(r));
    }
  }

  lemma HasPackage(options: seq<string>)
    requires Package(options).Some?
    ensures options != []
  {}

  lemma RoomyParts(argv0: string, options: seq<string>)
    requires Roomy(argv0, options)
    ensures argv0 != "" && AllPlain(options) && |MessageText(options)| <= RECOVERY_SIZE
  {}

  // ----- how a boot ends

  lemma ClearedIsEmpty()
    ensures Parse(Nuls(RECOVERY_SIZE)) == []
  {
    var field := Nuls(RECOVERY_SIZE);
    CStringStops(field[RECOVERY_SIZE - 1 := NUL], 0);
    assert CString(field[RECOVERY_SIZE - 1 := NUL]) == "";
    SplitNothing();
  }

  /** A finished boot leaves nothing behind: the next one finds no option and no command file. */
  lemma FinishedIsClean(s: State, argv0: string, f: Fate)
    requires Valid(s) && Writable(Options(s)) && argv0 != ""
    ensures var (s', outcome) := Boot(s, argv0, f);
            outcome == Finished ==>
              && s'.commandFile == None && (forall k :: 0 <= k < RECOVERY_SIZE ==> s'.field[k] == NUL)
              && Options(s') == [] && Package(Options(s')) == None && Count(Options(s')) == 0
  {
    hide Parse, Written, WithoutCount, Options;
    var s' := Boot(s, argv0, f).0;
    if Boot(s, argv0, f).1 == Finished {
      assert s'.field == Nuls(RECOVERY_SIZE);
      ClearedIsEmpty();
      assert Options(s') == [] by { NothingToRead(s'); }
    }
  }

  lemma NothingToRead(s: State)
    requires Valid(s) && Parse(s.field) == [] && s.commandFile == None
    ensures Options(s) == []
  {}

  /** How a boot ends, and what it leaves for the next one when it was on its first attempt. */
  lemma OutcomeIs(s: State, argv0: string, f: Fate)
    requires Valid(s) && Writable(Options(s)) && argv0 != ""
    ensures var (installs, count) := (Package(Options(s)).Some? && !f.skipped, Count(Options(s)));
            var outcome := Boot(s, argv0, f).1;
            && (outcome == PowerLost <==>
                  || f.cut == BeforeArgs || f.cut == AfterArgs || (installs && f.cut == AfterFirst)
                  || (installs && f.status == Retry && count < 4 && f.cut == AfterRetry))
            && (outcome == RetryReboot <==>
                  && installs && f.status == Retry && count < 4 && f.rebooted && (f.cut == Never))
            && (outcome == Finished <==>
                  && f.cut != BeforeArgs && f.cut != AfterArgs
                  && (!installs ||
                      (f.cut != AfterFirst &&
                       (f.status != Retry || count >= 4 || (f.cut != AfterRetry && !f.rebooted)))))
  {
    hide Parse, Written, WithoutCount, Options, Count, Package;
  }

  /** args[0], the options without their counter, and the new counter. */
  ghost predicate IsRetry(next: seq<string>, argv0: string, options: seq<string>, count: nat) {
    next == (if "--retry_count" <= argv0 then [] else [argv0]) + WithoutCount(options) +
            ["--retry_count=" + Decimal(count)]
  }

  /**
   * What the next boot reads after one that did not finish: the same options, or, once an attempt has
   * begun, those of a retry. The first attempt is counted before it starts.
   */
  lemma NextBootReads(s: State, argv0: string, f: Fate)
    requires Valid(s) && Roomy(argv0, Options(s)) && Package(Options(s)).Some?
    ensures var (options, count) := (Options(s), Count(Options(s)));
            var (s', outcome) := Boot(s, argv0, f);
            outcome != Finished ==>
              if f.cut == BeforeArgs || f.cut == AfterArgs || (f.cut == AfterFirst && count > 0) then
                Options(s') == options
              else IsRetry(Options(s'), argv0, options, count + 1)
  {
    hide Parse, Written, RetryOptions, Count, Package, Roomy, Body, Options, WithoutCount;
    var options := Options(s);
    var count := Count(options);
    assert options != [] by { HasPackage(options); }
    RoomyParts(argv0, options);
    WrittenIsFound(s, options);
    if count < RETRY_LIMIT {
      var r := RetryOptions(argv0, options, count + 1);
      RetryIsRoomy(argv0, options, count + 1);
      RoomyParts(argv0, r);
      RetryPackage(argv0, options, count + 1);
      assert r != [] by { HasPackage(r); }
      WrittenIsFound(s, r);
      assert State(Written(r), s.commandFile) == s.(field := Written(r));
      assert IsRetry(r, argv0, options, count + 1) by { RetryIs(argv0, options, count + 1); }
    }
  }

  lemma RetryIs(argv0: string, options: seq<string>, count: nat)
    ensures IsRetry(RetryOptions(argv0, options, count), argv0, options, count)
  {
    hide WithoutCount;
    WithoutFront(argv0, options);
  }

  /** The last package and the last counter win; other options change neither. */
  lemma LastOptionWins(options: seq<string>, n: nat, package: string, other: string)
    requires n < TWO_31 && !("--retry_count=" <= other) && !("--update_package=" <= other)
    ensures Count(options + ["--retry_count=" + Decimal(n)]) == n
    ensures Package(options + ["--update_package=" + package]) == Some(package)
    ensures Count(options + [other]) == Count(options) && Package(options + [other]) == Package(options)
    ensures Count([]) == 0 && Package([]) == None
  {
    var a, b := options + ["--retry_count=" + Decimal(n)], options + ["--update_package=" + package];
    var c := options + [other];
    assert a[..|a| - 1] == options && b[..|b| - 1] == options && c[..|c| - 1] == options;
    CountTextReads(n);
    assert ("--update_package=" + package)[|PACKAGE_OPTION|..] == package;
  }

  /** All options but the counter travel on, in order, behind args[0]. */
  lemma {:induction false} WithoutCountSplits(a: seq<string>, b: seq<string>)
    ensures WithoutCount(a + b) == WithoutCount(a) + WithoutCount(b)
    ensures forall o :: WithoutCount([o]) == if "--retry_count" <= o then [] else [o]
  {
    forall o: string ensures WithoutCount([o]) == if "--retry_count" <= o then [] else [o] {
      assert [o][..0] == [];
      assert WithoutCount([]) == [];
    }
    if b == [] {
      assert a + b == a;
    } else {
      var init, last := b[..|b| - 1], b[|b| - 1];
      assert (a + b)[..|a + b| - 1] == a + init;
      WithoutCountSplits(a, init);
    }
  }

  // ----- any number of boots

  /** The boots follow each other, and none of them finishes. */
  ghost predicate Unfinished(s: State, argv0: string, fs: seq<Fate>)
    decreases |fs|
  {
    && Valid(s) && Writable(Options(s)) && argv0 != ""
    && (fs != [] ==> Boot(s, argv0, fs[0]).1 != Finished && Unfinished(Boot(s, argv0, fs[0]).0, argv0, fs[1..]))
  }

  ghost function After(s: State, argv0: string, fs: seq<Fate>): (r: State)
    requires Unfinished(s, argv0, fs)
    ensures Valid(r)
    decreases |fs|
  {
    if fs == [] then s else After(Boot(s, argv0, fs[0]).0, argv0, fs[1..])
  }

  /** How many of the boots ended with a reboot for another attempt. */
  ghost function Retries(s: State, argv0: string, fs: seq<Fate>): (n: nat)
    requires Unfinished(s, argv0, fs)
    decreases |fs|
  {
    if fs == [] then 0
    else (if Boot(s, argv0, fs[0]).1 == RetryReboot then 1 else 0) + Retries(Boot(s, argv0, fs[0]).0, argv0, fs[1..])
  }

  /**
   * Over any boots, cut off anywhere, the package is kept, the counter never falls and rises with
   * every retry, so there are at most RETRY_LIMIT of them.
   */
  lemma {:induction false} UpdateIsKept(s: State, argv0: string, fs: seq<Fate>)
    requires Unfinished(s, argv0, fs) && Roomy(argv0, Options(s)) && Package(Options(s)).Some?
    ensures var s' := After(s, argv0, fs);
            && Package(Options(s')) == Package(Options(s))
            && Count(Options(s')) >= Count(Options(s)) + Retries(s, argv0, fs)
            && (Count(Options(s')) <= Count(Options(s)) || Count(Options(s')) <= RETRY_LIMIT)
    ensures Retries(s, argv0, fs) <= RETRY_LIMIT
    decreases |fs|
  {
    hide Boot, Options, Package, Count, Roomy;
    if fs != [] {
      BootKeepsUpdate(s, argv0, fs[0]);
      UpdateIsKept(Boot(s, argv0, fs[0]).0, argv0, fs[1..]);
    }
  }

  // ----- when the options do not fit

  lemma {:induction false} WithoutHasNoCount(options: seq<string>)
    ensures forall k :: 0 <= k < |WithoutCount(options)| ==> !(COUNT_PREFIX <= WithoutCount(options)[k])
  {
    if options != [] { WithoutHasNoCount(options[..|options| - 1]); }
  }

  lemma {:induction false} NoCount(options: seq<string>)
    requires forall k :: 0 <= k < |options| ==> CountIn(options[k]) == None
    ensures Count(options) == 0
  {
    hide CountIn;
    if options != [] { NoCount(options[..|options| - 1]); }
  }

  lemma NotACount(o: string)
    requires !(COUNT_PREFIX <= o)
    ensures CountIn(o) == None
  {
    CountHasPrefix(o);
  }

  lemma PartIsNotACount(o: string, n: nat)
    requires n <= |o| && (!(COUNT_PREFIX <= o) || n <= |COUNT_OPTION|)
    ensures CountIn(o[..n]) == None
  {
    var part := o[..n];
    CountHasPrefix(o);
    assert COUNT_OPTION <= part ==> COUNT_OPTION <= o;
    if COUNT_OPTION <= part {
      assert part[|COUNT_OPTION|..] == "";
    }
  }

  /** Cutting more than the last newline takes the digit of the counter away. */
  lemma {:induction false} TruncatedCount(w: seq<string>, last: string, n: nat)
    requires AllPlain(w) && Plain(last) && |last| == |COUNT_OPTION| + 1
    requires forall k :: 0 <= k < |w| ==> !(COUNT_PREFIX <= w[k])
    requires n + 1 < |Body(w + [last])|
    ensures forall k :: 0 <= k < |Truncated(w + [last], n)| ==> CountIn(Truncated(w + [last], n)[k]) == None
    decreases |w|
  {
    hide CountIn, Body;
    var options := w + [last];
    assert AllPlain(options);
    if n > 0 {
      var o := options[0];
      BodyCut(options, n);
      if w == [] {
        assert options[1..] == [];
        NoBody();
        PartIsNotACount(last, n);
      } else if n <= |o| {
        PartIsNotACount(o, n);
      } else {
        assert options[1..] == w[1..] + [last];
        NotACount(o);
        TruncatedCount(w[1..], last, n - |o| - 1);
      }
    }
  }

  /** The counter survives the write if and only if the text fits; otherwise it starts again at zero. */
  lemma CountSurvivesIff(argv0: string, options: seq<string>, count: nat)
    requires Plain(argv0) && AllPlain(options) && 0 < count <= RETRY_LIMIT
    ensures AllPlain(RetryOptions(argv0, options, count))
    ensures var r := RetryOptions(argv0, options, count);
            Count(Parse(Written(r))) == if |MessageText(r)| <= RECOVERY_SIZE then count else 0
  {
    hide Parse, Written, WithoutCount, Decimal, Body, CountIn, Truncated;
    var w := WithoutCount([argv0] + options);
    WithoutIsPlain([argv0] + options);
    CountTextIsPlain(count);
    OneDigit(count);
    var r := RetryOptions(argv0, options, count);
    if |MessageText(r)| <= RECOVERY_SIZE {
      RoundTripIff(r);
      RetryCount(argv0, options, count);
    } else {
      ParsesTruncated(r);
      WithoutHasNoCount([argv0] + options);
      TruncatedCount(w, COUNT_OPTION + Decimal(count), Room(r));
      NoCount(Truncated(r, Room(r)));
    }
  }
}
