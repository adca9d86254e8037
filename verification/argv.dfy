/** `split_on_double_dash`: the command line up to the first "--" is for
    the tool itself; everything after it is the command to launch. */
module Argv {
  import opened Results
  import opened Text

  const DoubleDash: string := "--"

  /** `(till_split, after_split)`. Without a "--" the whole argv is the
      tool's and nothing is left to launch. */
  function SplitOnDoubleDash(argv: seq<string>): (r: (seq<string>, seq<string>))
    ensures DoubleDash !in argv ==> r == (argv, [])
    ensures DoubleDash in argv ==> argv == r.0 + [DoubleDash] + r.1 && DoubleDash !in r.0
  {
    match IndexOf(argv, DoubleDash)
    case None => (argv, [])
    case Some(pos) =>
      assert argv == argv[..pos] + [DoubleDash] + argv[pos + 1..];
      if pos == |argv| - 1 then (argv[..pos], [])
      else (argv[..pos], argv[pos + 1..])
  }

  /** The split is at the FIRST "--": any way of writing argv as a part free
      of "--", then "--", then anything, is the one the function returns.
      Later "--" stay in the command. */
  lemma SplitIsFirst(argv: seq<string>, before: seq<string>, after: seq<string>)
    requires argv == before + [DoubleDash] + after
    requires DoubleDash !in before
    ensures SplitOnDoubleDash(argv) == (before, after)
  {
    assert argv[|before|] == DoubleDash;
    assert argv[..|before|] == before;
    IndexOfUnique(argv, DoubleDash, |before|);
    assert argv[|before| + 1..] == after;
  }

  /** A trailing "--" leaves nothing to launch. */
  lemma TrailingDoubleDash(before: seq<string>)
    requires DoubleDash !in before
    ensures SplitOnDoubleDash(before + [DoubleDash]) == (before, [])
  {
    SplitIsFirst(before + [DoubleDash], before, []);
  }

  lemma SplitExamples()
    ensures SplitOnDoubleDash(["molasses", "launch", "--", "chrome", "--", "x"])
      == (["molasses", "launch"], ["chrome", "--", "x"])
    ensures SplitOnDoubleDash(["molasses", "killall"]) == (["molasses", "killall"], [])
  {
    SplitIsFirst(["molasses", "launch", "--", "chrome", "--", "x"], ["molasses", "launch"], ["chrome", "--", "x"]);
  }
}
