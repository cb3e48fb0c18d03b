/** The program's configuration and its start-up validation (`configs`,
    `loadConfigurations` and the exit-code decision of `main` in proj2.c).

    argv[1..4] give, in this order, the number of elves [1, 1000], the number of
    reindeer [1, 19], the maximum elf work time in ms [0, 1000] and the maximum
    reindeer holiday in ms [0, 1000].  Loading stops at the first rejected argument,
    after that argument's field has already received the sentinel. */
module Configuration {
  import opened ArgParse

  /** C `short`. */
  newtype int16 = x: int | -0x8000 <= x < 0x8000

  /** The `(short)` cast with gcc: keep the low 16 bits, read as two's complement. */
  function ToShort(v: int): (r: int16)
    ensures (v - r as int) % 0x1_0000 == 0
    ensures -0x8000 <= v < 0x8000 ==> r as int == v
  {
    var low := v % 0x1_0000;
    if low < 0x8000 then low as int16 else (low - 0x1_0000) as int16
  }

  datatype Range = Range(min: int, max: int)

  /** The ranges of argv[1], argv[2], argv[3] and argv[4]. */
  const Ranges: seq<Range> := [Range(1, 1000), Range(1, 19), Range(0, 1000), Range(0, 1000)]

  /** Whether argument k + 1 is a non-empty digit string whose value is in field k's range. */
  predicate ValidArgument(args: seq<string>, k: nat)
    requires |args| >= 5 && k < 4
  {
    var a := args[k + 1];
    a != [] && AllDigits(a) && Ranges[k].min <= DecimalValue(a) <= Ranges[k].max
  }

  /** The result of parsing argument k + 1 against field k's range.  Every range starts at
      0 or above, so the sentinel never stands for a valid value, and every result fits
      in a `short`. */
  function FieldParse(args: seq<string>, k: nat): (r: int)
    requires |args| >= 5 && k < 4
    ensures r == BadInput <==> !ValidArgument(args, k)
    ensures r != BadInput ==> r == DecimalValue(args[k + 1]) && Ranges[k].min <= r <= Ranges[k].max
    ensures -1 <= r <= 1000
  {
    Parsed(args[k + 1], Ranges[k].min, Ranges[k].max)
  }

  /** The first field, from k on, whose argument is rejected; 4 when there is none. */
  function FirstFailureFrom(args: seq<string>, k: nat): (f: nat)
    requires |args| >= 5 && k <= 4
    ensures k <= f <= 4
    ensures forall j :: k <= j < f ==> ValidArgument(args, j)
    ensures f < 4 ==> !ValidArgument(args, f)
    decreases 4 - k
  {
    if k == 4 then 4
    else if FieldParse(args, k) == BadInput then k
    else FirstFailureFrom(args, k + 1)
  }

  function FirstFailure(args: seq<string>): nat
    requires |args| >= 5
  {
    FirstFailureFrom(args, 0)
  }

  predicate LoadSucceeds(args: seq<string>)
    requires |args| >= 5
  {
    FirstFailure(args) == 4
  }

  /** The four fields after loading: every field up to and including the first rejected
      one receives its parse result (the sentinel for the rejected one); later fields keep
      their previous values. */
  function Loaded(before: seq<int>, args: seq<string>): (after: seq<int>)
    requires |before| == 4 && |args| >= 5
    ensures |after| == 4
  {
    seq(4, j requires 0 <= j < 4 => if j <= FirstFailure(args) then FieldParse(args, j) else before[j])
  }

  /** The global `configs`. */
  class Configs {
    var elfNum: int16
    var reindeerNum: int16
    var elfWork: int16
    var reindeerHoliday: int16

    function Fields(): (f: seq<int>)
      reads this
      ensures |f| == 4
    {
      [elfNum as int, reindeerNum as int, elfWork as int, reindeerHoliday as int]
    }

    /** Zero-initialised, as a C global is. */
    constructor ()
      ensures Fields() == [0, 0, 0, 0]
    {
      elfNum, reindeerNum, elfWork, reindeerHoliday := 0, 0, 0, 0;
    }

    /** loadConfigurations: parse argv[1..4] into the fields in order, stopping at the
        first argument that is rejected. */
    method LoadConfigurations(args: seq<string>) returns (ok: bool)
      requires |args| >= 5
      modifies this
      ensures ok == LoadSucceeds(args)
      ensures Fields() == Loaded(old(Fields()), args)
    {
      ghost var before := Fields();
      var r := ParseInputArg(args[1], 1, 1000);
      elfNum := ToShort(r);
      if elfNum as int == BadInput {
        assert r == FieldParse(args, 0);
        assert Fields() == Loaded(before, args);
        return false;
      }
      r := ParseInputArg(args[2], 1, 19);
      reindeerNum := ToShort(r);
      if reindeerNum as int == BadInput {
        assert Fields() == Loaded(before, args);
        return false;
      }
      r := ParseInputArg(args[3], 0, 1000);
      elfWork := ToShort(r);
      if elfWork as int == BadInput {
        assert Fields() == Loaded(before, args);
        return false;
      }
      r := ParseInputArg(args[4], 0, 1000);
      reindeerHoliday := ToShort(r);
      if reindeerHoliday as int == BadInput {
        assert Fields() == Loaded(before, args);
        return false;
      }
      assert Fields() == Loaded(before, args);
      return true;
    }
  }

  /** The exit status of main: 1 when there are fewer than five entries in argv
      (program name and four arguments) or an argument is rejected, 0 otherwise. */
  function ExitCode(args: seq<string>): (code: int)
    ensures code == 0 || code == 1
    ensures code == 0 <==> |args| >= 5 && LoadSucceeds(args)
  {
    if |args| < 5 then 1
    else if !LoadSucceeds(args) then 1
    else 0
  }

  /** main: check the argument count, then load the configuration. */
  method Run(args: seq<string>, configs: Configs) returns (code: int)
    modifies configs
    ensures code == ExitCode(args)
    ensures |args| < 5 ==> configs.Fields() == old(configs.Fields())
    ensures |args| >= 5 ==> configs.Fields() == Loaded(old(configs.Fields()), args)
  {
    if |args| < 5 {
      return 1;
    }
    var ok := configs.LoadConfigurations(args);
    if !ok {
      return 1;
    }
    return 0;
  }

  // ---------------------------------------------------------------------------
  // Properties of loading

  /** Loading succeeds exactly when all four arguments are valid. */
  lemma LoadSucceedsIff(args: seq<string>)
    requires |args| >= 5
    ensures LoadSucceeds(args) <==> forall k :: 0 <= k < 4 ==> ValidArgument(args, k)
  {
  }

  /** After a successful load every field holds its argument's value, within its range. */
  lemma LoadedOnSuccess(before: seq<int>, args: seq<string>)
    requires |before| == 4 && |args| >= 5 && LoadSucceeds(args)
    ensures forall k :: 0 <= k < 4 ==>
              Loaded(before, args)[k] == DecimalValue(args[k + 1]) &&
              Ranges[k].min <= Loaded(before, args)[k] <= Ranges[k].max
  {
  }

  /** After a failed load at field f, the fields before f hold their arguments' values,
      field f holds the sentinel and the fields after f are unchanged. */
  lemma LoadedOnFailure(before: seq<int>, args: seq<string>)
    requires |before| == 4 && |args| >= 5 && !LoadSucceeds(args)
    ensures FirstFailure(args) < 4
    ensures forall k :: 0 <= k < FirstFailure(args) ==>
              Loaded(before, args)[k] == DecimalValue(args[k + 1]) &&
              Ranges[k].min <= Loaded(before, args)[k] <= Ranges[k].max
    ensures Loaded(before, args)[FirstFailure(args)] == BadInput
    ensures forall k :: FirstFailure(args) < k < 4 ==> Loaded(before, args)[k] == before[k]
  {
  }

  /** When every argument is non-empty and its value fits in an `int`, each field's parse
      result is the one the code as written computes, so the loaded fields, the result of
      loading and the exit status are the program's own. */
  lemma FieldParseMatchesCode(args: seq<string>)
    requires |args| >= 5
    requires forall k :: 1 <= k <= 4 ==> FitsInt(args[k])
    ensures forall k :: 0 <= k < 4 ==>
              FieldParse(args, k) == ParseInputArgAsWritten(args[k + 1], Ranges[k].min, Ranges[k].max)
  {
  }

  /** Arguments after the fourth play no part: neither the exit code nor the loaded
      fields depend on them. */
  lemma ExtraArgumentsIgnored(before: seq<int>, args: seq<string>)
    requires |before| == 4 && |args| >= 5
    ensures ExitCode(args) == ExitCode(args[..5])
    ensures Loaded(before, args) == Loaded(before, args[..5])
  {
  }

  /** The smallest valid command line: three elves, one reindeer, no waiting. */
  lemma SampleAccepted()
    ensures ExitCode(["proj2", "3", "1", "0", "0"]) == 0
  {
  }

  /** Leading zeros, upper bounds and a fifth argument are all accepted. */
  lemma SampleLeadingZerosAndExtraArgument()
    ensures ExitCode(["proj2", "007", "19", "1000", "1000", "extra"]) == 0
  {
    var args := ["proj2", "007", "19", "1000", "1000", "extra"];
    assert DecimalValue("007") == 7 by {
      LeadingZeros(2, "7");
      assert Zeros(2) + "7" == "007";
    }
    assert DecimalValue("19") == 19 by {
      assert "1" + ['9'] == "19";
      DecimalAppend("1", '9');
    }
    assert DecimalValue("1000") == 1000 by {
      assert DecimalValue("10") == 10 by {
        assert "1" + ['0'] == "10";
        DecimalAppend("1", '0');
      }
      assert DecimalValue("100") == 100 by {
        assert "10" + ['0'] == "100";
        DecimalAppend("10", '0');
      }
      assert "100" + ['0'] == "1000";
      DecimalAppend("100", '0');
    }
    assert ValidArgument(args, 0) && ValidArgument(args, 1);
    assert ValidArgument(args, 2) && ValidArgument(args, 3);
    LoadSucceedsIff(args);
  }

  /** Too few arguments, a reindeer count out of range, a sign, and a letter. */
  lemma SampleRejected()
    ensures ExitCode(["proj2", "3", "1", "0"]) == 1
    ensures ExitCode(["proj2", "3", "20", "0", "0"]) == 1
    ensures ExitCode(["proj2", "-3", "1", "0", "0"]) == 1
    ensures ExitCode(["proj2", "3", "1", "x", "0"]) == 1
  {
  }
}
