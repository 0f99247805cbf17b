# macresforks in Dafny

`macresforks` is a filter that sits in a pipeline such as
`find / -name '._*' -print0 | macresforks | xargs -0 -r rm`. It reads
NUL-separated paths from standard input. It writes back, NUL-separated and in
the same order, only the paths that look like macOS resource-fork companions
(base name starting with `._`) whose primary file exists. The primary file is
the same directory plus the base name without `._`.

This project models the whole filter in `macresforks.c`. The CLI text is not
modelled. It has three parts:

- **the tokenizer `nextStr`** (`reader.dfy`, specified in `null_delimited.dfy`):
  - `ByteStream` is a class holding the input bytes and a read cursor. `GetC` plays the role of `fgetc`.
  - `NextStr` is the `while(1)` loop over an `array<byte>` buffer. The buffer starts at 16 bytes and grows by doubling through `Realloc`. `Terminate` writes the final NUL and shrinks the buffer to the exact size.
  - `NextStr` is proved against the pure functions `Token` and `Consumed`.
  - The lemmas about `Tokens` and `Join` say that repeated reads partition the input.
- **the predicate `isVerifiedResFork`** (`res_fork.dfy`, using `posix_path.dfy`):
  - `Basename` and `Dirname` follow POSIX (IEEE Std 1003.1-2017, XSH "basename" and "dirname").
  - `Query` is the path handed to `access`, or `None` when no query is made.
  - `IsVerifiedResFork` is the verdict under a filesystem oracle `fileExists: Path -> bool`.
  - `CheckResFork` and `AssembleCandidate` are the imperative version. They build the candidate in a scratch `array<byte>` of `strlen(str) + 1` bytes, as lines 129-136 do, and are proved equal to `Query` and `IsVerifiedResFork`.
- **the filter loop of `main`** (`driver.dfy`):
  - `Run` pulls tokens with `NextStr` until it gets null, judges each one, and appends accepted tokens with a NUL to an `OutStream`.
  - Its contract ties the output to `FilterOutput`: the selected tokens joined with terminators.
  - `scenarios.dfy` derives whole runs from these lemmas.

## Model

| member | source | states |
|---|---|---|
| PosixPath.StripTrailingSlashes | macresforks.c:120 | the result is a prefix of the path that does not end in '/', and every byte cut off is a '/' |
| PosixPath.SegmentStart | macresforks.c:120 | the index just past the last '/': everything from there on is slash-free, and the byte before it is a '/' |
| PosixPath.Basename | macresforks.c:120-121 | basename is never empty; it is "/", ".", or a slash-free component |
| PosixPath.Dirname | macresforks.c:129-130 | dirname is never empty and never ends in '/' unless it is "/" itself |
| PosixPath.SplitWithDirectory | macresforks.c:120-130 | for `dir + one-or-more '/' + component + zero-or-more '/'`, basename is the component and dirname is `dir` ("/" when `dir` is empty) |
| PosixPath.SplitWithoutDirectory | macresforks.c:120-130 | for a component followed only by slashes, basename is the component and dirname is "." |
| PosixPath.DegeneratePaths | macresforks.c:120-130 | the empty path gives "." for both functions; an all-slash path gives "/" for both |
| PosixPath.ComponentsFit | macresforks.c:112-136 | when basename is a real component, dirname and basename together are at most one byte longer than the path |
| NullDelimited.Tokens | macresforks.c:174 | the paths the `while ((str = nextStr(stdin)))` loop receives, in order, until `nextStr` returns null; every read consumes at least one byte, so there are never more tokens than input bytes |
| NullDelimited.Join | macresforks.c:178-179 | the output wire format: each path followed by one NUL; it is empty exactly when there are no paths, and at least one byte per path |
| NullDelimited.JoinEndsInNul | macresforks.c:178-179 | a non-empty wire form always ends in a terminator |
| NullDelimited.TokenLength | macresforks.c:51-73 | the count of bytes before the first NUL: all of them are non-NUL, and the next byte, if any, is NUL |
| NullDelimited.Token | macresforks.c:53-73 | a token is the longest NUL-free prefix of the remaining input: a NUL or the end of input follows it |
| NullDelimited.Consumed | macresforks.c:53-70 | one read consumes the token plus its terminator when there is one, and always at least one byte of non-empty input |
| NullDelimited.TokenUnique | macresforks.c:53-73 | any NUL-free prefix followed by a NUL or by the end of input is the token |
| NullDelimited.TokensNulFree | macresforks.c:68-73 | no token produced by repeated reads contains a NUL |
| NullDelimited.JoinTokens | macresforks.c:55-70 | repeated reads partition the input: the tokens joined, each with one NUL, give back the input, with one NUL added exactly when the input did not end in one |
| NullDelimited.TokensJoin | macresforks.c:68-73 | conversely, NUL-free paths written with terminators are read back as exactly those paths, empty ones included |
| NullDelimited.JoinAppend | macresforks.c:178-179 | writing two lists of tokens one after the other writes their concatenation |
| NullDelimited.TokenBeforeNul | macresforks.c:68-73 | a NUL-free path followed by a NUL is read as that path, consuming exactly it and the NUL |
| NullDelimited.TokenOfCString | macresforks.c:89-90 | a buffer holding a NUL-free token and its terminator reads back as that token |
| NullDelimited.LeadingNulIsEmptyToken | macresforks.c:58-70 | a NUL as the first byte is an empty token, not end of stream, and only that NUL is consumed |
| NullDelimited.TrailingTerminatorOptional | macresforks.c:55-70 | an input ending on a terminator and the same input without it give the same tokens |
| NullDelimited.TerminatedAfterNul | macresforks.c:55-70 | after a prefix ending in NUL, only the rest of the input can need an added terminator |
| Reader.ByteStream.GetC | macresforks.c:53 | `fgetc`: the next byte with the cursor advanced by one, or EOF (-1) with the cursor unchanged at the end |
| Reader.Realloc | macresforks.c:79-85 | `realloc`: a fresh buffer of the new size that keeps the old bytes, as many as fit |
| Reader.Terminate | macresforks.c:89-102 | the NUL is written after the n bytes read, and the buffer ends up exactly n+1 bytes long with that content |
| Reader.NextStr | macresforks.c:38-105 | returns null if and only if the stream was already exhausted; otherwise returns a fresh buffer holding exactly the token and one NUL, and consumes exactly the token and its terminator; loop invariants keep `0 <= n < len` and `len = 16 * 2^k`, so every write is in bounds |
| ResFork.HasForkPrefix | macresforks.c:122 | the naming test: the base name has at least 2 bytes, the first '.' and the second '_' (a predicate; its consequences are in `RejectedWithoutQuery` and `AcceptedIffCandidateExists`) |
| ResFork.Candidate | macresforks.c:129-136 | the primary-file path `dirname + "/" + basename[2..]`, never longer than `strlen(str)`, so it fits the scratch buffer |
| ResFork.IsVerifiedResFork | macresforks.c:108-142 | the verdict of `isVerifiedResFork`: true only for a "._" base name whose candidate exists under the filesystem oracle |
| ResFork.Query | macresforks.c:119-139 | an existence query is made only for a "._" base name, and the queried path is never longer than `strlen(str)`, so it fits the scratch buffer |
| ResFork.RejectedWithoutQuery | macresforks.c:120-126 | a base name shorter than 2 bytes or not starting with "._" gives 0 and no query, whatever the filesystem holds |
| ResFork.AcceptedIffCandidateExists | macresforks.c:128-141 | a "._" base name leads to one query about `dirname + "/" + basename[2..]`, and the verdict is true exactly when that path exists |
| ResFork.VerdictDependsOnQueryOnly | macresforks.c:138-141 | two filesystems that agree on the queried path (or any two, when there is no query) give the same verdict |
| ResFork.DegeneratePathsRejected | macresforks.c:120-126 | the empty path (basename ".") and all-slash paths (basename "/") are rejected without a query |
| ResFork.CandidateInSameDirectory | macresforks.c:128-136 | for `dir + "/._" + name` the candidate is `dir + "/" + name`: same directory, only the two prefix bytes removed |
| ResFork.CandidateInCurrentDirectory | macresforks.c:128-136 | for `"._" + name` without a directory the candidate is `"./" + name` |
| ResFork.BareDotUnderscore | macresforks.c:133-136 | a base name of exactly "._" is not special-cased: the candidate is `dir + "/"` |
| ResFork.CheckResFork | macresforks.c:108-142 | the imperative verifier returns the verdict of `IsVerifiedResFork` and queries exactly `Query(str)`; `str` is a value and cannot be changed |
| ResFork.AssembleCandidate | macresforks.c:129-136 | the copy loop into the `strlen(str)+1`-byte scratch buffer stays in bounds, and leaves `dir + "/" + base[2..]` followed by a NUL |
| ResFork.CopyString | macresforks.c:131 | `strcpy`: the source bytes and a NUL at the front of the buffer, the rest of the buffer untouched |
| Driver.OutStream.Write | macresforks.c:178-179 | `fprintf` appends its bytes to everything written so far |
| Driver.FilterOutput | macresforks.c:172-182 | what the filter writes for the whole input: the tokens the verifier accepts, in input order, each followed by one NUL (definition; `Run`, `PassesIff`, `AllAcceptedEchoesInput` and `OutputNoLongerThanInput` state its properties) |
| Driver.Filtered | macresforks.c:174-181 | the same output built token by token, as each round of the loop reads a token and writes `Emitted`; `FilteredIsJoinSelected` proves it equal to `FilterOutput`'s form |
| Driver.Emitted | macresforks.c:176-180 | what one round of the loop writes: the path and one NUL when it is accepted, nothing otherwise (definition; `SelectStep` and `EmitIfVerified` use it) |
| Driver.SelectedAppend | macresforks.c:174-181 | selection over a concatenation is the concatenation of the selections, so input order is kept |
| Driver.SelectedMembers | macresforks.c:174-181 | a path is selected if and only if it is one of the tokens and is admitted |
| Driver.SelectedAll | macresforks.c:174-181 | when every token is admitted, selection keeps the whole list unchanged |
| Driver.PassesIff | macresforks.c:174-181 | a path appears in the output if and only if it is a token of the input and `isVerifiedResFork` accepts it |
| Driver.AllAcceptedEchoesInput | macresforks.c:174-181 | when every token is accepted, the output is the input with a final NUL added if it lacked one |
| Driver.SelectedJoinShorter | macresforks.c:174-181 | dropping paths from a list never makes its wire form longer |
| Driver.OutputNoLongerThanInput | macresforks.c:172-182 | the filter only removes paths: its output is never longer than the input with a final NUL added |
| Driver.SelectStep | macresforks.c:176-180 | processing one more token adds that token and a NUL to the output exactly when it is admitted |
| Driver.FilteredIsJoinSelected | macresforks.c:174-181 | filtering token by token, as the loop does, equals selecting among all tokens and joining them |
| Driver.FilterOutputOfJoin | macresforks.c:174-181 | on input in wire format, the output is the admitted paths among those written, each with one NUL |
| Driver.FilterOutputOfTwo | macresforks.c:174-181 | on two paths in wire format, the output is what the first earns followed by what the second earns |
| Driver.EmitIfVerified | macresforks.c:176-180 | the loop body writes the C string and one NUL exactly when it is verified, and nothing otherwise |
| Driver.Run | macresforks.c:172-182 | the loop stops only when the input is exhausted, and the output is, in input order, exactly the accepted tokens, each followed by one NUL |
| Scenarios.OrdinaryFileRejected | macresforks.c:120-126 | `dir/name` with an ordinary name is rejected without a query |
| Scenarios.CompanionOfExistingFilePasses | macresforks.c:172-182 | for input `dir/name\0dir/._name\0` with `dir/name` present, the output is `dir/._name\0` |
| Scenarios.CompanionWithoutPrimaryDropped | macresforks.c:172-182 | for input `dir/._name\0` with `dir/name` absent, the output is empty |
| Scenarios.UnprefixedNameNeverQueried | macresforks.c:172-182 | for input `name\0` with an ordinary name, the output is empty and no query is made |
| Scenarios.BareForkAsksAboutDirectory | macresforks.c:172-182 | for input `dir/._\0` the query is about `dir/`, and the path is output exactly when `dir/` exists |
| Scenarios.ScenarioExistingPrimary | macresforks.c:172-182 | `/tmp/foo\0/tmp/._foo\0` with `/tmp/foo` present gives `/tmp/._foo\0` |
| Scenarios.ScenarioMissingPrimary | macresforks.c:172-182 | `/tmp/._bar\0` with `/tmp/bar` absent gives no output |
| Scenarios.ScenarioOrdinaryName | macresforks.c:172-182 | `notes.txt\0` gives no output and no query |
| Scenarios.ScenarioBareFork | macresforks.c:133-139 | `a/._\0` queries `a/` |

## Behaviour of the code worth knowing

- A base name of exactly `._` is looked up as `dir/`. `access("dir/", F_OK)` succeeds when `dir` is a directory, so such a path is passed through (`BareForkAsksAboutDirectory`).
- The candidate equals the path minus the two bytes after its last separator only when the path has no repeated or trailing slashes (`CandidateInSameDirectory`). In general the code uses POSIX `dirname`:
  - `a//._b` gives `a/b`;
  - `/._b` gives `//b`, because dirname is `/` and a second `/` is added.
- `RejectedWithoutQuery`, `AcceptedIffCandidateExists`, `VerdictDependsOnQueryOnly` and `VerifierAccepts` spell out the definitions of `Query`, `IsVerifiedResFork` and `Verifier` as statements about the verifier's behaviour. The proved content of the verifier is elsewhere:
  - the shape of the candidate (`CandidateInSameDirectory`, `CandidateInCurrentDirectory`, `BareDotUnderscore`);
  - the length bound on the queried path (`Candidate`, through `ComponentsFit`);
  - the imperative `CheckResFork` and `AssembleCandidate`, which are proved equal to `Query`.

## Left out

- The CLI (`help`, `version`, the `argc >= 2` branch, macresforks.c:144-170): fixed text output with no logic.
- Out-of-memory exits (macresforks.c:44-48, 80-84, 96-100, 113-117): allocation always succeeds in the model. `Realloc` and the `new` arrays never fail.
- `access(tmp, F_OK)`: replaced by the oracle `fileExists`. The model does not cover permissions, symlinks, or a filesystem that changes between queries.
- stdio: `fgetc` buffering and the `FILE*` object are not modelled. Input is a byte sequence with a cursor (`ByteStream`), and output is an appended byte sequence (`OutStream`).
- `free` calls: heap deallocation is not modelled.
- Byte-level aliasing inside `isVerifiedResFork`: `basename`/`dirname` may write into `tmp`, and `base` points into `tmp`. The `strcpy(tmp, dir)` at line 131 can be an overlapping copy. With a trailing slash (`a/._b/`), the re-copy at line 129 can restore a `/` that the loop at lines 133-136 then copies, so the queried path can differ from the intended one. These results depend on the C library. The model computes the intended `dirname + "/" + basename[2..]` with pure POSIX functions. `AssembleCandidate` takes `dir` and `base` as values.
- The implementation-defined result of POSIX `dirname`/`basename` for a leading `//` is not modelled. A leading `//` is treated like `/`.
