/** get_args, set_retry_bootloader_message and the update branch of recovery's main, as they run. */
module RetryCode {
  import opened Bytes
  import opened Text
  import opened ControlBlock
  import opened RetryProtocol

  class Recovery {
    /** The control block in the misc partition. */
    const boot: BootloaderMessage
    var commandFile: Option<string>

    ghost predicate Shape()
      reads this, boot
    {
      boot.Valid()
    }

    ghost function View(): (s: State)
      requires Shape()
      reads this, boot, boot.recovery
      ensures RetryProtocol.Valid(s)
    {
      State(boot.recovery[..], commandFile)
    }

    constructor (boot: BootloaderMessage, commandFile: Option<string>)
      requires boot.Valid()
      ensures Shape() && this.boot == boot && this.commandFile == commandFile
    {
      this.boot, this.commandFile := boot, commandFile;
    }

    /** The arguments after args[0]. */
    method CollectArguments() returns (args: seq<string>)
      requires Shape()
      ensures args == Options(View())
    {
      hide Parse, Split;
      var copy := new BootloaderMessage();
      for k := 0 to RECOVERY_SIZE
        invariant fresh(copy) && fresh(copy.recovery) && copy.Valid()
        invariant copy.recovery[..k] == boot.recovery[..k]
      {
        copy.recovery[k] := boot.recovery[k];
        assert copy.recovery[..k + 1] == copy.recovery[..k] + [boot.recovery[k]];
        assert boot.recovery[..k + 1] == boot.recovery[..k] + [boot.recovery[k]];
      }
      assert copy.recovery[..] == copy.recovery[..RECOVERY_SIZE] && boot.recovery[..] == boot.recovery[..RECOVERY_SIZE];
      ghost var field := copy.recovery[..];
      args := copy.Arguments();
      if |args| == 0 && commandFile.Some? {
        var tokens := Split(commandFile.value);
        assert tokens[0..] == tokens;
        for i := 0 to |tokens|
          invariant args + Kept(tokens[i..]) == Kept(tokens)
        {
          assert tokens[i..][1..] == tokens[i + 1..];
          if tokens[i] != "" && tokens[i][0] != NUL {
            ConcatAssoc(args, [tokens[i]], Kept(tokens[i + 1..]));
            args := args + [tokens[i]];
          }
        }
        assert tokens[|tokens|..] == [];
      }
    }

    /** set_retry_bootloader_message. */
    method SetRetry(count: nat, args: seq<string>)
      requires Shape() && Writable(args)
      modifies boot.command, boot.recovery
      ensures Writable(WithoutCount(args) + [COUNT_OPTION + Decimal(count)])
      ensures boot.recovery[..] == Written(WithoutCount(args) + [COUNT_OPTION + Decimal(count)])
    {
      hide Written, Decimal;
      var options: seq<string> := [];
      for k := 0 to |args|
        invariant options == WithoutCount(args[..k])
      {
        assert args[..k + 1][..|args[..k + 1]| - 1] == args[..k];
        if !(COUNT_PREFIX <= args[k]) {
          options := options + [args[k]];
        }
      }
      assert args[..|args|] == args;
      WritableWithout(args);
      options := options + [COUNT_OPTION + Decimal(count)];
      boot.Update(options);
    }

    /** The getopt_long loop, for the two options of the protocol. */
    static method ParseOptions(options: seq<string>) returns (count: nat, package: Option<string>)
      ensures count == Count(options) && package == Package(options)
    {
      hide CountIn, PackageIn;
      count, package := 0, None;
      for k := 0 to |options|
        invariant count == Count(options[..k]) && package == Package(options[..k])
      {
        assert options[..k + 1][..|options[..k + 1]| - 1] == options[..k];
        var c, p := CountIn(options[k]), PackageIn(options[k]);
        if c.Some? { count := c.value; }
        if p.Some? { package := p; }
      }
      assert options[..|options|] == options;
    }

    /** finish_recovery: clear the block, remove the command file. */
    method FinishRecovery()
      requires Shape()
      modifies this, boot.command, boot.recovery
      ensures View() == State(Nuls(RECOVERY_SIZE), None)
    {
      BootloaderMessage.Clear(boot.command);
      BootloaderMessage.Clear(boot.recovery);
      commandFile := None;
    }

    /** recovery's main, with the power lost where `f.cut` says. */
    method Start(argv0: string, f: Fate) returns (outcome: Outcome)
      requires Shape() && Writable(Options(View())) && argv0 != ""
      modifies this, boot.command, boot.recovery
      ensures (View(), outcome) == Boot(old(View()), argv0, f)
    {
      hide Written, Options, Count, Package, WithoutCount;
      if f.cut == BeforeArgs { return PowerLost; }
      var options := CollectArguments();
      boot.Update(options);
      if f.cut == AfterArgs { return PowerLost; }
      var args := [argv0] + options;
      var count, package := ParseOptions(options);
      if package.Some? && !f.skipped {
        if count == 0 { SetRetry(count + 1, args); }
        if f.cut == AfterFirst { return PowerLost; }
        if f.status == Retry && count < RETRY_LIMIT {
          SetRetry(count + 1, args);
          if f.cut == AfterRetry { return PowerLost; }
          if f.rebooted { return RetryReboot; }
        }
      }
      FinishRecovery();
      return Finished;
    }
  }
}
