/** Group names and the `<controllers>:/<name>` handles the cgroup tools take. */
module Naming {
  import opened Results
  import opened Text

  const Prefix: string := "molasses_cg_"
  const Alphabet: string := "abcdefghi"
  const SuffixLength: nat := 5

  /** The random draws `create_cg_name` makes: five indices into the alphabet. */
  predicate ValidChoices(choices: seq<nat>) {
    |choices| == SuffixLength && forall i | 0 <= i < |choices| :: choices[i] < |Alphabet|
  }

  /** `create_cg_name`, with `rng.choice` replaced by the given draws. */
  function CreateCgName(choices: seq<nat>): (name: string)
    requires ValidChoices(choices)
    ensures |name| == |Prefix| + SuffixLength == 17
    ensures name[..|Prefix|] == Prefix
    ensures forall i | |Prefix| <= i < |name| :: name[i] in Alphabet
  {
    Prefix + seq(|choices|, i requires 0 <= i < |choices| => Alphabet[choices[i]])
  }

  /** The inverse: the draws a generated name came from, if it is one. */
  function ParseCgName(name: string): (r: Option<seq<nat>>)
  {
    if |name| != |Prefix| + SuffixLength || name[..|Prefix|] != Prefix then None
    else DrawsOf(name[|Prefix|..])
  }

  function DrawsOf(suffix: string): (r: Option<seq<nat>>)
    ensures r.Some? ==> |r.value| == |suffix|
    ensures r.Some? ==> forall i | 0 <= i < |suffix| :: r.value[i] < |Alphabet| && Alphabet[r.value[i]] == suffix[i]
  {
    if |suffix| == 0 then Some([])
    else match (IndexOf(Alphabet, suffix[0]), DrawsOf(suffix[1..]))
      case (Some(k), Some(ks)) => Some([k] + ks)
      case _ => None
  }

  lemma AlphabetDistinct(k: nat)
    requires k < |Alphabet|
    ensures IndexOf(Alphabet, Alphabet[k]) == Some(k)
  {
    IndexOfUnique(Alphabet, Alphabet[k], k);
  }

  lemma {:induction false} DrawsOfPicks(choices: seq<nat>)
    requires forall i | 0 <= i < |choices| :: choices[i] < |Alphabet|
    ensures DrawsOf(seq(|choices|, i requires 0 <= i < |choices| => Alphabet[choices[i]])) == Some(choices)
  {
    var picks := seq(|choices|, i requires 0 <= i < |choices| => Alphabet[choices[i]]);
    if |choices| > 0 {
      var tail := seq(|choices| - 1, i requires 0 <= i < |choices| - 1 => Alphabet[choices[1..][i]]);
      assert picks[1..] == tail;
      DrawsOfPicks(choices[1..]);
      AlphabetDistinct(choices[0]);
      assert [choices[0]] + choices[1..] == choices;
    }
  }

  /** Names and draws determine each other: different draws give different names. */
  lemma NameRoundTrip(choices: seq<nat>)
    requires ValidChoices(choices)
    ensures ParseCgName(CreateCgName(choices)) == Some(choices)
  {
    var name := CreateCgName(choices);
    var picks := seq(|choices|, i requires 0 <= i < |choices| => Alphabet[choices[i]]);
    assert name[|Prefix|..] == picks;
    DrawsOfPicks(choices);
  }

  lemma NameFromDraws(name: string)
    requires ParseCgName(name).Some?
    ensures ValidChoices(ParseCgName(name).value)
    ensures CreateCgName(ParseCgName(name).value) == name
  {
    var choices := ParseCgName(name).value;
    var picks := seq(|choices|, i requires 0 <= i < |choices| => Alphabet[choices[i]]);
    assert name == name[..|Prefix|] + name[|Prefix|..];
    assert picks == name[|Prefix|..];
  }

  /** `cg_handle`: the subsystems comma-joined, ":/", then the name. */
  function CgHandle(cgName: string, subsystems: seq<string>): (h: string)
    ensures |h| >= |cgName| + 2 && h[|h| - |cgName|..] == cgName
    ensures h[|h| - |cgName| - 2..|h| - |cgName|] == ":/"
  {
    Join(subsystems, ',') + ":/" + cgName
  }

  /** How a cgroup tool reads a handle back: controllers up to the first ':',
      split at ',', then the path after ":/". */
  function ParseHandle(h: string): Option<(seq<string>, string)> {
    match IndexOf(h, ':')
    case None => None
    case Some(i) =>
      if i + 1 < |h| && h[i + 1] == '/' then Some((Split(h[..i], ','), h[i + 2..])) else None
  }

  /** The handle carries the subsystem list and the name intact, provided
      there is a subsystem and none holds a ',' or a ':'. */
  lemma HandleRoundTrip(cgName: string, subsystems: seq<string>)
    requires |subsystems| > 0
    requires forall i | 0 <= i < |subsystems| :: ',' !in subsystems[i] && ':' !in subsystems[i]
    ensures ParseHandle(CgHandle(cgName, subsystems)) == Some((subsystems, cgName))
  {
    var j := Join(subsystems, ',');
    var h := CgHandle(cgName, subsystems);
    JoinAvoids(subsystems, ',', ':');
    assert h[..|j|] == j;
    assert h[|j|] == ':';
    IndexOfUnique(h, ':', |j|);
    assert h[|j| + 2..] == cgName;
    SplitJoin(subsystems, ',');
  }

  /** The other direction: whatever a tool reads off a handle, as controllers
      and a name, builds that handle again. */
  lemma HandleFromParse(h: string)
    requires ParseHandle(h).Some?
    ensures CgHandle(ParseHandle(h).value.1, ParseHandle(h).value.0) == h
  {
    var i := IndexOf(h, ':').value;
    JoinSplit(h[..i], ',');
    assert h == h[..i] + ":/" + h[i + 2..];
  }

  lemma CpuHandle(cgName: string)
    ensures CgHandle(cgName, ["cpu"]) == "cpu:/" + cgName
  {
  }
}
