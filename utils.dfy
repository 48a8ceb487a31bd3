/** The commit-message client and the staged-diff reader
    (aicommit/src/utils.py). */
module Utils {
  import opened PyStr
  import opened Wrappers
  import opened Effects

  /** Completions requested when the caller does not say how many. */
  const DefaultNumMessages := 5

  /** The request `generate_commit_messages` sends: the diff, the language and
      `n` completions, 5 unless the caller passes `num_messages`. */
  function CommitMessageRequest(diff: string, language: string := "english",
                                numMessages: int := DefaultNumMessages): Effect
  {
    RequestCommitMessages(diff, language, numMessages)
  }

  /** Called with only the diff and the language, as `main` calls it, the
      request asks for the default five completions. */
  lemma CommitMessageRequestDefaults(diff: string, language: string)
    ensures CommitMessageRequest(diff).language == "english"
    ensures CommitMessageRequest(diff, language).count == 5
    ensures CommitMessageRequest(diff, language) == RequestCommitMessages(diff, language, 5)
  {
  }

  /** One returned choice made into a commit message: stripped, then every
      line break removed. */
  function CleanMessage(content: string): (m: string)
    ensures '\n' !in m
    ensures IsStripped(m)
    ensures m == "" <==> forall k :: 0 <= k < |content| ==> IsSpace(content[k])
    ensures '\n' !in content ==> m == Strip(content)
  {
    var s := Strip(content);
    assert s != [] ==> s[0] != '\n' && s[|s| - 1] != '\n';
    RemoveAllEnds(s, '\n');
    RemoveAllWithout(s, '\n');
    assert '\n' !in content ==> '\n' !in s by {
      if '\n' !in content { StripWithout(content, '\n'); }
    }
    RemoveAll(s, '\n')
  }

  /** A cleaned message is left alone by a second cleaning. */
  lemma CleanMessageIdempotent(content: string)
    ensures CleanMessage(CleanMessage(content)) == CleanMessage(content)
  {
    var m := CleanMessage(content);
    StripOfPadded([], m, []);
    assert [] + m + [] == m;
  }

  /** The messages made from the reply's choices: one per choice, in the
      reply's order. */
  function CleanMessages(contents: seq<string>): (msgs: seq<string>)
    ensures |msgs| == |contents|
    ensures forall i :: 0 <= i < |msgs| ==> msgs[i] == CleanMessage(contents[i])
    ensures forall i :: 0 <= i < |msgs| ==> '\n' !in msgs[i] && IsStripped(msgs[i])
    decreases |contents|
  {
    if contents == [] then [] else [CleanMessage(contents[0])] + CleanMessages(contents[1..])
  }

  /** `generate_commit_messages` after its single service call, given what
      the call returned (`Ok` with the choices' contents) or that it raised:
      an exception is re-raised, never turned into a partial list. */
  function GenerateCommitMessages(reply: Result<seq<string>>): (r: Result<seq<string>>)
    ensures r.Err? <==> reply.Err?
    ensures r.Ok? ==> |r.value| == |reply.value|
    ensures r.Ok? ==> forall i :: 0 <= i < |r.value| ==>
              r.value[i] == CleanMessage(reply.value[i])
  {
    match reply
    case Err => Err
    case Ok(contents) => Ok(CleanMessages(contents))
  }

  /** The files of `git diff --cached --name-only`: its output split on "\n"
      with the last piece dropped. */
  function ChangedFiles(nameOnly: string): (files: seq<string>)
    ensures forall k :: 0 <= k < |files| ==> '\n' !in files[k]
    ensures Terminated(files) <= nameOnly
    ensures '\n' !in nameOnly[|Terminated(files)|..]
  {
    var parts := Split(nameOnly, '\n');
    var files := parts[..|parts| - 1];
    JoinSplit(nameOnly, '\n');
    JoinIsTerminated(parts);
    assert parts[..|parts| - 1] == files;
    files
  }

  /** Each file name followed by a line break. */
  function Terminated(files: seq<string>): string {
    if files == [] then "" else files[0] + "\n" + Terminated(files[1..])
  }

  /** A "\n"-join is the pieces but the last, each followed by a line break,
      then the last piece. */
  lemma {:induction false} JoinIsTerminated(parts: seq<string>)
    requires |parts| >= 1
    ensures Join(parts, '\n') == Terminated(parts[..|parts| - 1]) + parts[|parts| - 1]
    decreases |parts|
  {
    if |parts| == 1 {
      assert parts[..0] == [];
    } else {
      JoinIsTerminated(parts[1..]);
      var init := parts[..|parts| - 1];
      assert init[0] == parts[0] && init[1..] == parts[1..][..|parts[1..]| - 1];
    }
  }

  /** Per-file mode: the diffs of `files`, one after another in list order;
      the first file whose diff command fails makes the whole call fail. */
  function PerFileDiff(files: seq<string>, diffOf: string -> Result<string>): (r: Result<string>)
    ensures r.Err? <==> exists k :: 0 <= k < |files| && diffOf(files[k]).Err?
    ensures files == [] ==> r == Ok("")
    decreases |files|
  {
    if files == [] then Ok("")
    else
      var init := files[..|files| - 1];
      var last := files[|files| - 1];
      assert forall k :: 0 <= k < |init| ==> init[k] == files[k];
      match PerFileDiff(init, diffOf)
      case Err => Err
      case Ok(acc) =>
        match diffOf(last)
        case Err => Err
        case Ok(d) => Ok(acc + d)
  }

  /** The per-file diff of a single file is that file's diff; with the empty
      case and `PerFileDiffAppend`, the per-file diff of a list is the
      concatenation of its files' diffs in list order. */
  lemma PerFileDiffOne(f: string, diffOf: string -> Result<string>)
    ensures PerFileDiff([f], diffOf) == diffOf(f)
  {
    assert [f][..0] == [];
    if diffOf(f).Ok? {
      assert "" + diffOf(f).value == diffOf(f).value;
    }
  }

  /** Diffing two lists of files one after the other gives the concatenation
      of their diffs. */
  lemma {:induction false} PerFileDiffAppend(a: seq<string>, b: seq<string>, diffOf: string -> Result<string>)
    requires PerFileDiff(a, diffOf).Ok? && PerFileDiff(b, diffOf).Ok?
    ensures PerFileDiff(a + b, diffOf) == Ok(PerFileDiff(a, diffOf).value + PerFileDiff(b, diffOf).value)
    decreases |b|
  {
    if b == [] {
      assert a + b == a;
      assert PerFileDiff(a, diffOf).value + "" == PerFileDiff(a, diffOf).value;
    } else {
      var init := b[..|b| - 1];
      assert (a + b)[..|a + b| - 1] == a + init;
      var last := b[|b| - 1];
      assert (a + b)[|a + b| - 1] == last;
      assert PerFileDiff(init, diffOf).Ok? && diffOf(last).Ok?;
      assert PerFileDiff(b, diffOf).value == PerFileDiff(init, diffOf).value + diffOf(last).value;
      PerFileDiffAppend(a, init, diffOf);
      var x, y, d := PerFileDiff(a, diffOf).value, PerFileDiff(init, diffOf).value, diffOf(last).value;
      assert PerFileDiff(a + init, diffOf) == Ok(x + y);
      assert PerFileDiff(a + b, diffOf) == Ok((x + y) + d);
      assert (x + y) + d == x + (y + d);
    }
  }

  /** `get_diff`: in per-file mode the changed files' diffs are accumulated
      one by one, in whole-tree mode the output of `git diff --cached .` is
      returned as it is. A failing command raises out of the call. */
  method GetDiff(diffPerFile: bool, nameOnly: Result<string>,
                 diffOf: string -> Result<string>, wholeTree: Result<string>)
    returns (diff: Result<string>)
    ensures !diffPerFile ==> diff == wholeTree
    ensures diffPerFile && nameOnly.Err? ==> diff.Err?
    ensures diffPerFile && nameOnly.Ok? ==> diff == PerFileDiff(ChangedFiles(nameOnly.value), diffOf)
  {
    if diffPerFile {
      if nameOnly.Err? {
        return Err;
      }
      var files := ChangedFiles(nameOnly.value);
      var acc := "";
      var i := 0;
      while i < |files|
        invariant 0 <= i <= |files|
        invariant PerFileDiff(files[..i], diffOf) == Ok(acc)
      {
        var out := diffOf(files[i]);
        assert files[..i + 1][..i] == files[..i];
        if out.Err? {
          assert PerFileDiff(files[..i + 1], diffOf) == Err;
          assert files[..i + 1][i] == files[i];
          assert files[i] == files[..i + 1][i];
          return Err;
        }
        acc := acc + out.value;
        i := i + 1;
      }
      assert files[..i] == files;
      diff := Ok(acc);
    } else {
      diff := wholeTree;
    }
  }
}
