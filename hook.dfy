/**
  The hook controller: `is_on_branch`, `has_fixme_comments` and `main`
  (fixme_fail/main.py:66-99). The two git commands are not run: each is
  given as the abstract `Exit` its child process would produce.
*/
module Hook {
  import opened Wrappers
  import opened PyStr
  import opened Runner

  const SymbolicRefCmd: Command := ShellLine("git symbolic-ref HEAD")
  const StagedFixmeCmd: Command := ShellLine("git diff --cached | grep -iE \"\\+.*?FIXME\" || true")

  /** The branches protected when no `--branch` is given. */
  const DefaultProtected: set<string> := {"master", "main"}

  /**
    `'/'.join(ref_name.strip().split('/')[2:])`: the branch name, i.e. every
    path segment after the first two, joined back with `/`. With fewer than
    two `/` in the stripped ref it is empty; otherwise it is a tail of the
    stripped ref.
  */
  function ParseBranch(refName: string): (r: string)
    ensures Count(Strip(refName, Text), '/') < 2 ==> r == []
    ensures |r| <= |Strip(refName, Text)| && r == Strip(refName, Text)[|Strip(refName, Text)| - |r|..]
  {
    var t := Strip(refName, Text);
    var chunks := Split(t, '/');
    JoinSplit(t, '/');
    if |chunks| >= 3 then
      JoinFirstTwo('/', chunks);
      Join('/', From(chunks, 2))
    else
      Join('/', From(chunks, 2))
  }

  /**
    `is_on_branch`: false when `git symbolic-ref HEAD` fails (detached HEAD,
    not a repository), otherwise whether the parsed branch name is protected.
  */
  function IsOnBranch(protected: set<string>, headRef: Exit): (r: bool)
    ensures headRef.returncode != 0 ==> !r
    ensures headRef.returncode == 0 ==> (r <==> ParseBranch(headRef.stdout) in protected)
  {
    var out := RunOutcome(SymbolicRefCmd, true, true, headRef);
    RStripThenStrip(headRef.stdout, Text);
    if out.Err? then false
    else
      RStripUnique(headRef.stdout, out.value.0.value, Text);
      ParseBranch(out.value.0.value) in protected
  }

  /**
    `has_fixme_comments`: raises when the diff pipeline fails; otherwise true
    exactly when the (right-stripped) filtered diff is not empty, so output
    made only of whitespace does not block.
  */
  function HasFixmeComments(diff: Exit): (r: Result<bool, CalledProcessError>)
    ensures r.Err? <==> diff.returncode != 0
    ensures r.Err? ==> r.error == CalledProcessError(diff.returncode, StagedFixmeCmd, Some(diff.stdout), Some(diff.stderr))
    ensures r.Ok? ==> (r.value <==> exists i :: 0 <= i < |diff.stdout| && !IsSpace(diff.stdout[i], Text))
  {
    var out := RunOutcome(StagedFixmeCmd, true, true, diff);
    if out.Err? then Err(out.error)
    else
      RStripUnique(diff.stdout, out.value.0.value, Text);
      RStripEmpty(diff.stdout, Text);
      Ok(out.value.0.value != "")
  }

  /**
    `frozenset(args.branch or ('master', 'main'))`: the given names, or the
    defaults when none are given (an empty list is falsy too).
  */
  function ProtectedSet(branch: Option<seq<string>>): (r: set<string>)
    ensures (branch.None? || branch.value == []) ==> r == DefaultProtected
    ensures branch.Some? && branch.value != [] ==> forall b :: b in r <==> b in branch.value
  {
    if branch.None? || branch.value == [] then DefaultProtected
    else set b | b in branch.value
  }

  /**
    `main` after argument parsing: exit status 1 exactly when the branch is
    protected and staged FIXMEs were found, 0 otherwise; an error from the
    diff step propagates. The diff step is consulted only on a protected
    branch (Python's short-circuit `and`).
  */
  function HookMain(branch: Option<seq<string>>, headRef: Exit, diff: Exit): (r: Result<int, CalledProcessError>)
    ensures r == Ok(1) <==> IsOnBranch(ProtectedSet(branch), headRef) && HasFixmeComments(diff) == Ok(true)
    ensures r == Ok(0) <==> !IsOnBranch(ProtectedSet(branch), headRef) || HasFixmeComments(diff) == Ok(false)
    ensures r.Err? <==> IsOnBranch(ProtectedSet(branch), headRef) && diff.returncode != 0
    ensures r.Err? ==> HasFixmeComments(diff) == Err(r.error)
  {
    var protected := ProtectedSet(branch);
    if !IsOnBranch(protected, headRef) then Ok(0)
    else
      match HasFixmeComments(diff)
      case Err(e) => Err(e)
      case Ok(found) => Ok(if found then 1 else 0)
  }

  /** On an unprotected branch the outcome of the diff step does not matter: it is never looked at. */
  lemma UnprotectedIgnoresDiff(branch: Option<seq<string>>, headRef: Exit, diff1: Exit, diff2: Exit)
    requires !IsOnBranch(ProtectedSet(branch), headRef)
    ensures HookMain(branch, headRef, diff1) == HookMain(branch, headRef, diff2) == Ok(0)
  {
  }

  /** Detached HEAD (or any failure of `git symbolic-ref`) always allows the commit. */
  lemma DetachedHeadAllows(branch: Option<seq<string>>, headRef: Exit, diff: Exit)
    requires headRef.returncode != 0
    ensures HookMain(branch, headRef, diff) == Ok(0)
  {
  }

  /**
    The branch name is everything after the second `/` of the stripped ref,
    so a name that itself contains `/` is recovered whole.
  */
  lemma ParseAfterSecondSlash(refName: string, p: string, q: string, rest: string)
    requires '/' !in p && '/' !in q
    requires Strip(refName, Text) == p + ['/'] + q + ['/'] + rest
    ensures ParseBranch(refName) == rest
  {
    DropTwoPieces(Strip(refName, Text), p, q, rest);
    JoinSplit(rest, '/');
  }

  lemma DropTwoPieces(t: string, p: string, q: string, rest: string)
    requires '/' !in p && '/' !in q
    requires t == p + ['/'] + q + ['/'] + rest
    ensures From(Split(t, '/'), 2) == Split(rest, '/')
  {
    var tail := q + ['/'] + rest;
    assert t == p + ['/'] + tail;
    SplitAfterSep(p, tail, '/');
    SplitAfterSep(q, rest, '/');
    assert Split(t, '/') == [p] + ([q] + Split(rest, '/'));
  }

  /**
    Round trip: the ref git prints for branch `b` (including a `b` with `/`
    in it, and with whatever whitespace follows) parses back to `b`. Git
    refuses branch names that end in ASCII whitespace; a name ending in other
    whitespace that `strip()` removes (such as U+00A0) parses without it.
  */
  lemma ParseHeadsRef(b: string, trail: string)
    requires b != [] ==> !IsSpace(b[|b| - 1], Text)
    requires AllSpace(trail, Text)
    ensures ParseBranch("refs/heads/" + b + trail) == b
  {
    HeadsPrefixShape();
    ParseTwoLevelRef("refs", "heads", b, trail);
    assert "refs" + ['/'] + "heads" + ['/'] + b + trail == "refs/heads/" + b + trail;
  }

  lemma HeadsPrefixShape()
    ensures "refs"[0] == 'r' && !IsSpace('r', Text)
    ensures '/' !in "refs" && '/' !in "heads"
    ensures "refs/heads/" == "refs" + ['/'] + "heads" + ['/']
  {
  }

  /** `<p>/<q>/<b>` padded with trailing whitespace parses to `b`, the general form of the round trip. */
  lemma ParseTwoLevelRef(p: string, q: string, b: string, trail: string)
    requires p != [] && !IsSpace(p[0], Text)
    requires '/' !in p && '/' !in q
    requires b != [] ==> !IsSpace(b[|b| - 1], Text)
    requires AllSpace(trail, Text)
    ensures ParseBranch(p + ['/'] + q + ['/'] + b + trail) == b
  {
    var t := p + ['/'] + q + ['/'] + b;
    var s := t + trail;
    assert t[0] == p[0];
    assert t[|t| - 1] == if b == [] then '/' else b[|b| - 1];
    assert s == [] + t + trail;
    StripPadded([], t, trail, Text);
    ParseAfterSecondSlash(s, p, q, b);
  }

  /** On branch `b`, the hook checks the diff exactly when `b` is protected. */
  lemma OnNamedBranch(branch: Option<seq<string>>, b: string, diff: Exit)
    requires b != [] ==> !IsSpace(b[|b| - 1], Text)
    ensures var headRef := Exit(0, "refs/heads/" + b + "\n", "");
      HookMain(branch, headRef, diff) ==
        if b in ProtectedSet(branch) then
          match HasFixmeComments(diff)
          case Err(e) => Err(e)
          case Ok(found) => Ok(if found then 1 else 0)
        else Ok(0)
  {
    ParseHeadsRef(b, "\n");
  }

  /** A successful diff step whose output has a non-whitespace character reports FIXMEs. */
  lemma FoundOnNonBlank(diff: Exit, i: nat)
    requires diff.returncode == 0 && i < |diff.stdout| && !IsSpace(diff.stdout[i], Text)
    ensures HasFixmeComments(diff) == Ok(true)
  {
  }

  /** A FIXME line staged on `main` with the default protection blocks the commit. */
  lemma BlocksFixmeOnMain(b: string, line: string)
    requires b == "main"
    requires line == "+    // FIXME: handle edge case\n"
    ensures HookMain(None, Exit(0, "refs/heads/" + b + "\n", ""), Exit(0, line, "")) == Ok(1)
  {
    var diff := Exit(0, line, "");
    assert line[0] == '+';
    assert !IsTextSpace('+');
    FoundOnNonBlank(diff, 0);
    assert !IsSpace(b[3], Text);
    OnNamedBranch(None, b, diff);
    assert b in ProtectedSet(None);
  }

  /**
    Any branch outside the protected set, `feature/x` included, lets every
    staged change through, whatever the diff step would have reported.
  */
  lemma AllowsUnprotectedBranch(branch: Option<seq<string>>, b: string, diff: Exit)
    requires b != [] ==> !IsSpace(b[|b| - 1], Text)
    requires b !in ProtectedSet(branch)
    ensures HookMain(branch, Exit(0, "refs/heads/" + b + "\n", ""), diff) == Ok(0)
  {
    OnNamedBranch(branch, b, diff);
  }

  /**
    A branch given with `--branch`, `release/2024-01` or any other name with
    `/` in it, is blocked exactly when the filtered diff has non-blank output.
  */
  lemma ProtectsGivenBranch(bs: seq<string>, b: string, diff: Exit)
    requires b != [] ==> !IsSpace(b[|b| - 1], Text)
    requires b in bs
    requires diff.returncode == 0
    ensures HookMain(Some(bs), Exit(0, "refs/heads/" + b + "\n", ""), diff) ==
      if RStrip(diff.stdout, Text) != "" then Ok(1) else Ok(0)
  {
    OnNamedBranch(Some(bs), b, diff);
    RStripUnique(diff.stdout, RunOutcome(StagedFixmeCmd, true, true, diff).value.0.value, Text);
  }

  /** Nothing found by the filter on a protected branch allows the commit. */
  lemma AllowsCleanDiffOnMaster(b: string, diff: Exit)
    requires b == "master"
    requires diff == Exit(0, "", "")
    ensures HookMain(None, Exit(0, "refs/heads/" + b + "\n", ""), diff) == Ok(0)
  {
    assert !IsSpace(b[5], Text);
    OnNamedBranch(None, b, diff);
  }

  /** Given branches replace the defaults instead of adding to them. */
  lemma GivenBranchesReplaceDefaults()
    ensures ProtectedSet(Some(["foo", "bar"])) == {"foo", "bar"}
    ensures "main" !in ProtectedSet(Some(["foo", "bar"]))
  {
  }
}
