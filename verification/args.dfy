/** The command-line check of utils/args.py: a run selects its tests either
    by name (`--test`) or by group (`--group`), never both and never
    neither. Argument parsing itself is left to the caller. */
module Args {
  import opened Wrappers
  import opened Errors

  /** The parsed options: `--test` and `--group` collect their values when
      given at least once and are absent otherwise; `--server` is required. */
  datatype Args = Args(test: Option<seq<string>>, group: Option<seq<string>>, server: seq<string>)

  /** `validate_args`: fails when no selection is given and when both are. */
  function ValidateArgs(a: Args): (r: Outcome<Error>)
    ensures r.Pass? <==> (a.test.Some? <==> a.group.None?)
    ensures a.test.None? && a.group.None? ==> r == Fail(InvalidArgument(NoSelection))
    ensures a.test.Some? && a.group.Some? ==> r == Fail(InvalidArgument(BothSelections))
  {
    if a.test.None? && a.group.None? then Fail(InvalidArgument(NoSelection))
    else if a.test.Some? && a.group.Some? then Fail(InvalidArgument(BothSelections))
    else Pass
  }

  /** Validation looks at the selection only: the servers, and the values
      given to the chosen option, do not change the verdict. */
  lemma ValidateSelectionOnly(a: Args, b: Args)
    requires a.test.Some? == b.test.Some? && a.group.Some? == b.group.Some?
    ensures ValidateArgs(a) == ValidateArgs(b)
  {
  }
}
