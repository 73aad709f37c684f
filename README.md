# fixme_fail: a Dafny model of the FIXME pre-commit hook

`fixme_fail` is a git pre-commit hook. It asks git for the current branch.
If that branch is protected (by default `master` and `main`, or the names
given with `-b/--branch`), it filters the staged diff for `FIXME`. It exits
with status 1 when the filter prints anything and 0 otherwise.

The model covers the logic under the subprocess calls:

- `PyStr` (`pystr.dfy`): the Python string operations the hook uses.
  These are whitespace as `str.isspace()` (and `bytes`) define it, `rstrip()`,
  `lstrip()`, `strip()`, `split(sep)`, `sep.join(...)` and the slice `xs[k:]`.
  `Split` and `Join` behave as in Python: consecutive separators give empty
  pieces, and `"".split("/")` is `[""]`.
- `Runner` (`runner.dfy`): `run_cmd` as a method. The child process is an
  abstract function from the `Invocation` handed to `subprocess.run` to an
  `Exit` (return code, stdout, stderr). `RunOutcome` is the function that
  states what `run_cmd` returns or raises for a given `Exit`.
  A raised `CalledProcessError` is an `Err`.
- `Hook` (`hook.dfy`): `is_on_branch`, `has_fixme_comments` and `main` (after
  argument parsing) as functions of the two git commands' `Exit`
  values, plus lemmas for the branch-name round trip and the exit-code table.

The source computes a merged environment (`os.environ` overlaid with
`extra_env`) and never uses it. The child receives `env=extra_env` itself,
so a non-empty `extra_env` replaces the environment rather than extending it.
The model keeps this behaviour: `RunCmd` builds the merge into a local that
nothing reads, and its contract states `inv.env == extraEnv`.

The filter is `grep -iE "\+.*?FIXME"`, which is not anchored to the start of
a line. A removed line with a `+` before `FIXME` therefore also matches. The
model follows the code: the filtered output is an opaque string, and no
contract claims that only added lines can block a commit.

Git refuses branch names that end in ASCII whitespace, but it accepts names
ending in other characters that Python's `strip()` removes, such as U+00A0.
The source strips the whole ref, so a branch named `main` followed by U+00A0
parses as `main` and is protected like it. The model keeps this behaviour:
`ParseHeadsRef` only promises the round trip for names that do not end in
such whitespace.

## Model

| member | source | states |
|---|---|---|
| `PyStr.IsTextSpace` | fixme_fail/main.py:71 | the whitespace set of `str.isspace()`, which `strip()` removes: it contains every ASCII whitespace byte, and among ASCII characters it adds only `\x1c` to `\x1f` |
| `PyStr.IsSpace` | fixme_fail/main.py:56-61 | the whitespace `strip()` removes in text or bytes mode (selected by `text`); whatever bytes mode removes, text mode removes too |
| `PyStr.RStrip` | fixme_fail/main.py:61 | the result is a prefix of the input; everything it drops is whitespace; it does not itself end in whitespace |
| `PyStr.LStrip` | fixme_fail/main.py:71 | the result is a suffix of the input; everything it drops is whitespace; it does not itself start with whitespace |
| `PyStr.Strip` | fixme_fail/main.py:71 | the result is empty exactly when the input is all whitespace; otherwise it neither starts nor ends with whitespace |
| `PyStr.RStripUnique` | fixme_fail/main.py:61 | any string meeting the rstrip characterisation is `RStrip`'s result, so the characterisation pins down `rstrip()` |
| `PyStr.LStripUnique` | fixme_fail/main.py:71 | any string meeting the lstrip characterisation is `LStrip`'s result |
| `PyStr.StripPadded` | fixme_fail/main.py:71 | stripping text that has whitespace on both sides gives back the text, when the text has no whitespace at either end |
| `PyStr.RStripThenStrip` | fixme_fail/main.py:68-71 | `strip()` after `run_cmd`'s `rstrip()` gives the same result as `strip()` on the raw output |
| `PyStr.RStripEmpty` | fixme_fail/main.py:61-78 | `rstrip()` gives `""` exactly when the input is whitespace only |
| `PyStr.Split` | fixme_fail/main.py:71 | `split(sep)` returns one more piece than there are separators, and no piece contains the separator |
| `PyStr.Join` | fixme_fail/main.py:72 | the joined string starts with the first piece and, when there are several pieces, continues with the separator |
| `PyStr.From` | fixme_fail/main.py:72 | `xs[k:]` has `len(xs) - k` elements (none when `k` is past the end), and its `i`-th element is `xs[k + i]` |
| `PyStr.JoinFirstTwo` | fixme_fail/main.py:72 | a join of three or more pieces is the first piece, `/`, the second piece, `/`, then the join of the rest |
| `PyStr.JoinSplit` | fixme_fail/main.py:71-72 | joining the pieces of a split with the same separator gives back the original string |
| `PyStr.SplitJoin` | fixme_fail/main.py:71-72 | splitting a join of separator-free pieces gives back the pieces |
| `PyStr.SplitAfterSep` | fixme_fail/main.py:71 | a separator-free prefix followed by the separator becomes the first piece of the split |
| `Runner.Captured` | fixme_fail/main.py:55-61 | `p.stdout`/`p.stderr` hold a value exactly when output was captured, and that value is the child's output |
| `Runner.RunOutcome` | fixme_fail/main.py:58-63 | a non-zero return code raises `CalledProcessError` carrying that code, the command and the raw output (present exactly when captured), whether or not output was captured; return code 0 gives the right-stripped `(stdout, stderr)` pair when captured and `(None, None)` otherwise |
| `Runner.RunCmd` | fixme_fail/main.py:46-63 | `shell` is true exactly for a string command; a `Path` working directory is made absolute and a string is passed unchanged; the child gets `extra_env` itself as its environment; capture, text and timeout are passed through; the result is `RunOutcome` of what the child did |
| `Hook.ParseBranch` | fixme_fail/main.py:71-72 | the parsed name is empty when the stripped ref has fewer than two `/`, and is always a tail of the stripped ref |
| `Hook.IsOnBranch` | fixme_fail/main.py:66-73 | a failing `git symbolic-ref` gives false instead of an error; otherwise true exactly when the branch parsed from its output is in the protected set |
| `Hook.HasFixmeComments` | fixme_fail/main.py:76-84 | raises exactly when the diff pipeline exits non-zero, with that error; otherwise true exactly when the filtered output has a non-whitespace character |
| `Hook.ProtectedSet` | fixme_fail/main.py:95 | with no `--branch` values the set is exactly `{"master", "main"}`; otherwise it holds exactly the given names, with no defaults added |
| `Hook.HookMain` | fixme_fail/main.py:96-99 | exit 1 exactly when the branch is protected and FIXMEs were found; exit 0 exactly when the branch is unprotected or none were found; an error exactly when the branch is protected and the diff step fails, and that error is the diff step's own `CalledProcessError`, passed on unchanged |
| `Hook.UnprotectedIgnoresDiff` | fixme_fail/main.py:96 | on an unprotected branch the decision is 0 whatever the diff step would report, so the short-circuit `and` never consults it |
| `Hook.DetachedHeadAllows` | fixme_fail/main.py:67-70 | when `git symbolic-ref HEAD` fails, the commit is allowed for any staged content |
| `Hook.ParseAfterSecondSlash` | fixme_fail/main.py:71-72 | the parsed branch is everything after the second `/` of the stripped ref, including any further `/` |
| `Hook.DropTwoPieces` | fixme_fail/main.py:71-72 | after two separator-free pieces and their `/`, the slice `[2:]` of the split is the split of the rest |
| `Hook.ParseHeadsRef` | fixme_fail/main.py:68-72 | `refs/heads/<b>` followed by any whitespace parses back to `b`, for every `b` that does not end in whitespace, including names with `/` |
| `Hook.ParseTwoLevelRef` | fixme_fail/main.py:71-72 | `<p>/<q>/<b>` followed by any whitespace parses to `b`, for separator-free `p`, `q` with `p` not starting with whitespace and `b` not ending in it |
| `Hook.OnNamedBranch` | fixme_fail/main.py:66-99 | on branch `b` the decision is the diff step's verdict when `b` is protected and 0 when it is not |
| `Hook.AllowsUnprotectedBranch` | fixme_fail/main.py:95-99 | a branch outside the protected set (such as `feature/x` with the defaults) is allowed whatever is staged |
| `Hook.ProtectsGivenBranch` | fixme_fail/main.py:95-99 | a branch given with `--branch` (such as `release/2024-01`) is blocked exactly when the filtered diff has non-blank output |
| `Hook.FoundOnNonBlank` | fixme_fail/main.py:77-82 | a successful diff step whose output has a non-whitespace character reports FIXMEs |
| `Hook.BlocksFixmeOnMain` | fixme_fail/main.py:76-99 | example, not a general property: on `main` with the default set, a staged line `+    // FIXME: handle edge case` gives exit 1 |
| `Hook.AllowsCleanDiffOnMaster` | fixme_fail/main.py:78-84 | example, not a general property: on `master` with empty filter output, the exit status is 0 |
| `Hook.GivenBranchesReplaceDefaults` | fixme_fail/main.py:95 | example: `--branch foo --branch bar` protects exactly `{"foo", "bar"}`, so `main` is not protected |

## Left out

- Decoding and newline translation in text mode: an `Exit`'s stdout and stderr are the text as Python read it. They are already decoded, and universal newlines have turned `\r\n` and `\r` into `\n`. The model does not derive them from the child's bytes.
- Spawning processes, the shell, and the two git commands: each child process is an abstract `Exit` or an abstract function from invocation to `Exit`.
- `timeout` and `TimeoutExpired`: the timeout is only passed through into the `Invocation`; a child that times out is not modelled.
- The semantics of `grep -iE "\+.*?FIXME"` and the `|| true` exit masking: the filtered output is an opaque string. So the model can still let the diff step fail, even though `|| true` masks grep's status in practice.
- `Path.absolute()` and `os.environ`: these are parameters of `RunCmd` (`absolute`, `osEnviron`).
- argparse parsing and its usage errors: `HookMain` takes the parsed `--branch` list as an `Option<seq<string>>`.
- The ANSI-coloured message and the printed matches: these are output only.
- The interpreter's exit status 1 for an uncaught `CalledProcessError` from the diff step: `HookMain` returns that error as `Err` instead of a status.
- Bytes mode (`text=False`): output is still modelled as `seq<char>`, with `bytes.rstrip()`'s six ASCII whitespace bytes. The hook itself only uses text mode.
- `PyStr.Split`: only a one-character separator is modelled, which is the only kind the hook uses.
