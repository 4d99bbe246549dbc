# gerf — exact-size file content, modelled in Dafny

`gerf` ("generate random file content") writes a file of a requested size filled
with filler text. The size is given in bytes. Without `--exceed`, sizes above
the default maximum of 64 KiB are refused. With `--exceed`, the user must answer
a yes/no prompt first. The content is built in three steps:

1. `generate_random_filecontent` draws tokens from a fixed 12-entry vocabulary
   (`LOREM`). Its running byte count trails one token behind, and it stops once
   that count reaches the size, or after `size - 1` draws.
2. `shrink_content_to_exact_size` pops the last token from the vector in place.
   It re-sums the remaining bytes, pushes `size - length` single `"-"` tokens and
   returns a copy of the vector.
3. `make_string` concatenates the tokens in order.

The model has four modules:

- `Bytes` (bytes.dfy): `u64`, the two panics of Rust's checked arithmetic, and
  `ByteLen`, the UTF-8 length that `str::len` reports.
- `Content` (content.dfy): the vocabulary and the three steps of the pipeline.
  The vector lent by `&mut` is the class `TokenVec`. Both loops are methods with
  invariants.
- `Gate` (gate.dfy): `MAXSIZE`, Rust's `trim`, the classification of an answer,
  the `let_user_confirm` loop and the size gate.
- `Cli` (cli.dfy): the decisions `main` takes before writing the file.

The central result is `Content.GenerateExactContent`. For every size and every
sequence of random draws, the produced string is exactly `size` bytes long, and
`size` characters long. The unchecked `u64` subtraction `size - length` at
src/main.rs:185 is modelled as written: a debug build panics when it underflows.
The model proves that this never happens on the generator's output. The reason is
the generator's loop invariant: every proper prefix of the drawn tokens is
shorter than `size` (`Content.BelowBudget`).

Randomness is a parameter `draw: nat -> LoremIndex`. Call `k` of
`gen_range(0..=11)` returns `draw(k)`. `LoremIndex` is the subtype `0..11`, so
every index is in bounds by construction, and the theorems hold for all draws.

Sizes are plain byte counts: `convert_size` is `todo!()`, so no units are
accepted. There is a single limit, `MAXSIZE`, which `--exceed` lifts after
confirmation. The subtraction `size - length` in the shrinking step is a plain
`u64` subtraction, not a saturating one.

Arithmetic follows a debug build. An addition or subtraction that leaves the
`u64` range ends the computation with `Err(AddOverflow)` or
`Err(SubtractOverflow)`. The counter at src/main.rs:166 can overflow only when
`size + 8` exceeds the `u64` maximum. Even then, about 2^61 draws would first be
needed. The model reports this case rather than excluding it by a precondition.

## Model

| member | source | states |
|---|---|---|
| `Bytes.ByteLen` | src/main.rs:166 | `str::len` as used by the program: the number of bytes in the UTF-8 encoding, between one and four per character. |
| `Bytes.AsciiByteLen` | src/main.rs:166 | A string has as many bytes as characters exactly when it is ASCII. |
| `Content.TotalLen` | src/main.rs:182-183 | The byte total of a token sequence, which the re-summing closure accumulates in `length`. Its properties are stated by `TotalLenAppend`, `TotalLenPrefix` and `TotalLenDashes`. |
| `Content.LoremTokens` | src/main.rs:19-32 | The table has 12 entries, and each entry is ASCII and 1 to 9 bytes long. |
| `Content.DrawnTokenBound` | src/main.rs:172-173 | A token pushed from a draw is at most 9 bytes long. |
| `Content.GenerateRandomFilecontent` | src/main.rs:160-177 | On success, token `j` is `LOREM[draw(j)]`. There are no tokens for sizes 0 and 1, and fewer than `size` otherwise. Every proper prefix is below `size` bytes. The loop stopped only because the total reached `size`, or after `size - 1` tokens. An overflow of the counter needs `size + 8 > 2^64 - 1`. |
| `Content.PushBelowBudget` | src/main.rs:165-174 | Pushing while the running total is below `size` keeps every proper prefix below `size`. `length` then covers every token but the new last one. |
| `Content.GeneratedFitsShrink` | src/main.rs:180-185 | On the generator's output, all tokens but the last add up to at most `size` bytes (strictly less when there is a token), so `size - length` does not underflow. |
| `Content.TokenVec.Pop` | src/main.rs:180 | `Vec::pop` removes and returns the last token, and returns `None` on an empty vector. |
| `Content.TokenVec.Push` | src/main.rs:188 | `Vec::push` appends one token. |
| `Content.ShrinkContentToExactSize` | src/main.rs:179-193 | The caller's vector becomes all its tokens but the last, in order, followed by `size - length` dashes, and the returned vector equals it. The re-sum overflow and the subtraction underflow are the only panics, each with its exact condition. |
| `Content.Shrunk` | src/main.rs:180-189 | The shrunk content has exactly `size` bytes. It keeps the popped vector as a prefix and adds only `"-"` tokens. |
| `Content.TotalLenDashes` | src/main.rs:186-189 | `n` padding tokens make `n` bytes. |
| `Content.ShrunkExample` | src/main.rs:179-193 | From `["one","two","three"]` and size 8, the shrunk content is `["one","two","-","-"]`. |
| `Content.MakeString` | src/main.rs:195-197 | `make_string`: the tokens joined in order. What the join means for its length and for splitting is stated by `MakeStringByteLen` and `MakeStringAppend`. |
| `Content.MakeStringByteLen` | src/main.rs:195-197 | The concatenated string's byte length is the sum of the tokens' byte lengths. |
| `Content.MakeStringAppend` | src/main.rs:195-197 | Concatenating two consecutive chunks gives the concatenation of the whole. An ordered parallel collect therefore equals the sequential one. |
| `Content.MakeStringExample` | src/main.rs:337-343 | `["This"," ","is"," ","a"," ","test"]` gives `"This is a test"`. |
| `Content.MadeOfAscii` | src/main.rs:121-123 | The final content is ASCII, so its byte length equals its character count. |
| `Content.GenerateExactContent` | src/main.rs:121-123 | For any size and any draws, generate, shrink and `make_string` give exactly `size` bytes. Size 0 gives `""`. The only failure is the counter overflow for sizes within 8 of the `u64` maximum. |
| `Gate.MaxSizeValue` | src/main.rs:320-324 | `MAXSIZE` (line 18) is 65536, fits a `u32`, and is not above 100000, so the assertion `100000 < MAXSIZE` in the `should_panic` test fails as that test expects. |
| `Gate.TrimStart` | src/main.rs:145 | `trim_start` on Unicode `White_Space`, characterized by `TrimStartSpec` and `TrimStartUnique`. |
| `Gate.TrimEnd` | src/main.rs:145 | `trim_end` on Unicode `White_Space`, characterized by `TrimEndSpec` and `TrimEndUnique`. |
| `Gate.Trim` | src/main.rs:145 | `str::trim`: `trim_end` after `trim_start`, characterized by `TrimSplits`, `TrimTrimmed` and `TrimUnique`. |
| `Gate.TrimStartSpec` | src/main.rs:145 | `trim_start` drops exactly the leading whitespace. |
| `Gate.TrimEndSpec` | src/main.rs:145 | `trim_end` drops exactly the trailing whitespace. |
| `Gate.TrimStartUnique` | src/main.rs:145 | Whatever follows a run of leading whitespace and does not itself start with whitespace is what `trim_start` returns. |
| `Gate.TrimEndUnique` | src/main.rs:145 | Whatever precedes a run of trailing whitespace and does not itself end with whitespace is what `trim_end` returns. |
| `Gate.TrimSplits` | src/main.rs:145 | A line is some leading whitespace, then its trimmed form, then some trailing whitespace. |
| `Gate.TrimUnique` | src/main.rs:145 | The trimmed form is the only such core of a line. |
| `Gate.TrimTrimmed` | src/main.rs:145 | A trimmed answer neither starts nor ends with whitespace. |
| `Gate.ClassifyAnswer` | src/main.rs:145-151 | The match on the trimmed line: `"y"` and `"Y"` accept, `""`, `"n"` and `"N"` abort, and anything else asks again. |
| `Gate.ClassifyIgnoresWhitespace` | src/main.rs:145-151 | Whitespace around an answer never changes its classification. |
| `Gate.AcceptLine` | src/main.rs:145-146 | `"y\n"` trims to `"y"` and accepts. |
| `Gate.AbortLines` | src/main.rs:145-150 | `"N\n"` and `"\n"` trim to `"N"` and `""` and abort. |
| `Gate.AskAgainLine` | src/main.rs:145-151 | `"yes\n"` is not one of the listed answers, so the prompt asks again. |
| `Gate.EndOfInputAborts` | src/main.rs:140-149 | The empty line read at end of input aborts. |
| `Gate.Confirms` | src/main.rs:133-153 | The decision the prompt loop reaches on a list of input lines: the first line that does not ask again decides, and end of input aborts. |
| `Gate.LetUserConfirm` | src/main.rs:132-154 | The prompt loop's decision is `Confirms(stdin)`: the first line that is not asked again decides, and end of input aborts. |
| `Gate.ConfirmsFirstDecisive` | src/main.rs:133-153 | The user has confirmed exactly when the first decisive line accepts. |
| `Gate.UndecidedAborts` | src/main.rs:133-153 | Input without a decisive line aborts. |
| `Gate.ConfirmsIgnoresLaterLines` | src/main.rs:145-151 | Once a line decides, the lines after it are never read: replacing them does not change the decision. |
| `Gate.SizeGate` | src/main.rs:90-105 | Without `--exceed`, a size above `MAXSIZE` is refused and any other size proceeds without a prompt. With `--exceed`, confirmation is always asked. |
| `Gate.Admitted` | src/main.rs:90-105 | Whether `main` gets past the size check: without `--exceed`, exactly the sizes up to `MAXSIZE`; with `--exceed`, exactly when the user confirms. |
| `Cli.Run` | src/main.rs:77-129 | A missing size prints help and exits 0, and an unparsable size exits 1. A gate refusal or an abort exits 0 without a file, and so does an existing file without `--override`. Otherwise the run either writes a file of exactly `size` bytes or panics. It panics only for sizes within 8 of the `u64` maximum. |
| `Cli.RunWithinLimit` | src/main.rs:90-124 | Without `--exceed`, every size up to `MAXSIZE` gives a file of exactly that many bytes and characters, whatever standard input holds, when the destination does not exist or `--override` is given. |

## Left out

- The `log` subcommand, the Ctrl-C handler, logger setup and config-directory creation (src/main.rs:34-75, 278-314) are operating-system plumbing.
- The clap command line (`gerf()`) is left out. The flags are booleans, and the parsed size argument is `Cli.SizeArg`. The `u64` string parsing itself is left out.
- Reading standard input is replaced by a list of lines, with end of input read as an empty line. A failing `read_line` (the `expect` panic) and the printed prompts are not modelled.
- `populate_file` / `fs::write`: the file write is the outcome `Written(content)`. The destination path and write errors are not modelled. `path.exists()` is the boolean `pathExists`.
- `thread_rng` is replaced by the injected `draw` function. No generator is modelled.
- Rayon's parallel `collect` is modelled as sequential, in-order concatenation.
- `convert_size` is `todo!()` and has no behaviour to model.
- Coloured terminal output is left out.
- Release builds wrap `u64` arithmetic instead of panicking. The model follows debug builds.
- Content.GenerateRandomFilecontent: states the counter overflow only by its necessary condition `size + 8 > 2^64 - 1`, not by its exact condition, because reaching it needs about 2^61 draws.
