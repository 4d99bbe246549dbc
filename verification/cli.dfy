/** The part of `main` that decides, from the size argument and the flags,
    whether a file is written and with what content. */
module Cli {
  import opened Bytes
  import opened Content
  import opened Gate

  /** The `SIZE` argument as `main` sees it: absent, not a `u64`, or a size. */
  datatype SizeArg = Missing | NotANumber | Size(n: u64)

  /** How a run ends: a process exit with a status, the content written to the
      destination file, or a panic of the checked arithmetic. */
  datatype Outcome = Exit(code: int) | Written(content: string) | Panicked(reason: Panic)

  /** `main` without the log subcommand: print help without a size, exit 1 on a
      size that is not a number, apply the size gate, refuse to overwrite an
      existing file without `--override`, then generate and write the content.
      `pathExists` stands for the file-system query and `stdin` for the lines the
      confirmation prompt reads. */
  method Run(arg: SizeArg, exceed: bool, overrideFlag: bool, pathExists: bool,
             stdin: seq<string>, draw: nat -> LoremIndex) returns (o: Outcome)
    ensures arg == Missing ==> o == Exit(0)
    ensures arg == NotANumber ==> o == Exit(1)
    ensures arg.Size? && !Admitted(arg.n, exceed, stdin) ==> o == Exit(0)
    ensures arg.Size? && Admitted(arg.n, exceed, stdin) && pathExists && !overrideFlag ==> o == Exit(0)
    ensures arg.Size? && Admitted(arg.n, exceed, stdin) && (overrideFlag || !pathExists) ==>
              o.Written? || o.Panicked?
    ensures arg.Size? && Admitted(arg.n, exceed, stdin) && (overrideFlag || !pathExists) ==>
              o.Written? || arg.n + 8 > U64_MAX
    ensures o.Written? ==> arg.Size? && Admitted(arg.n, exceed, stdin)
    ensures o.Written? ==> |o.content| == arg.n && ByteLen(o.content) == arg.n
    ensures o.Panicked? ==> arg.Size? && arg.n + 8 > U64_MAX
  {
    match arg
    case Missing =>
      return Exit(0);
    case NotANumber =>
      return Exit(1);
    case Size(size) =>
      if !exceed {
        if size > MAXSIZE {
          return Exit(0);
        }
      } else {
        var confirmed := LetUserConfirm(stdin);
        if !confirmed {
          return Exit(0);
        }
      }
      if pathExists && !overrideFlag {
        return Exit(0);
      }
      var content := GenerateExactContent(size, draw);
      match content
      case Ok(s) =>
        o := Written(s);
      case Err(p) =>
        o := Panicked(p);
  }

  /** Without `--exceed` every size up to the default maximum yields a file of
      exactly that many bytes, whatever the draws and whatever standard input
      holds (no answer is needed), provided the destination does not exist yet
      or `--override` is given. */
  method RunWithinLimit(size: u64, overrideFlag: bool, pathExists: bool,
                        stdin: seq<string>, draw: nat -> LoremIndex) returns (o: Outcome)
    requires size <= MAXSIZE
    requires overrideFlag || !pathExists
    ensures o.Written? && |o.content| == size && ByteLen(o.content) == size
  {
    o := Run(Size(size), false, overrideFlag, pathExists, stdin, draw);
  }
}
