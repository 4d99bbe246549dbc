/** The guard rails in front of the content pipeline: the default maximum file
    size, and the yes/no confirmation asked for when it is exceeded. */
module Gate {
  import opened Bytes

  /** `MAXSIZE`, the `u32` constant `64 * (1 << 10)`: 64 KiB. */
  const MAXSIZE: int := 64 * 1024

  /** The constant is 65536, which is not above 100000: the assertion
      `100000 < MAXSIZE` of the test that expects a panic does fail. */
  lemma MaxSizeValue()
    ensures MAXSIZE == 65536 && MAXSIZE <= 0xFFFF_FFFF
    ensures !(100000 < MAXSIZE)
  {
  }

  /** Rust's `char::is_whitespace`: the Unicode `White_Space` property. */
  predicate IsWhitespace(c: char)
  {
    c in WHITESPACE
  }

  const WHITESPACE: set<char> := {
    '\t', '\n', '\U{B}', '\U{C}', '\r', ' ', '\U{85}', '\U{A0}', '\U{1680}',
    '\U{2000}', '\U{2001}', '\U{2002}', '\U{2003}', '\U{2004}', '\U{2005}', '\U{2006}',
    '\U{2007}', '\U{2008}', '\U{2009}', '\U{200A}', '\U{2028}', '\U{2029}', '\U{202F}',
    '\U{205F}', '\U{3000}'
  }

  predicate AllWhitespace(s: string)
  {
    forall k :: 0 <= k < |s| ==> IsWhitespace(s[k])
  }

  /** A string that neither starts nor ends with whitespace. */
  predicate Trimmed(t: string)
  {
    t == [] || (!IsWhitespace(t[0]) && !IsWhitespace(t[|t| - 1]))
  }

  /** `str::trim_start`: `s` without its leading whitespace. */
  function TrimStart(s: string): (r: string)
    decreases |s|
  {
    if s != [] && IsWhitespace(s[0]) then TrimStart(s[1..]) else s
  }

  /** `str::trim_end`: `s` without its trailing whitespace. */
  function TrimEnd(s: string): (r: string)
    decreases |s|
  {
    if s != [] && IsWhitespace(s[|s| - 1]) then TrimEnd(s[..|s| - 1]) else s
  }

  /** `str::trim`: `s` with leading and trailing whitespace removed. */
  function Trim(s: string): (r: string)
  {
    TrimEnd(TrimStart(s))
  }

  /** `TrimStart` drops exactly the whitespace at the front: what it returns is
      a suffix of `s`, everything before it is whitespace, and it does not
      itself start with whitespace. */
  lemma {:induction false} TrimStartSpec(s: string)
    ensures |TrimStart(s)| <= |s| && TrimStart(s) == s[|s| - |TrimStart(s)|..]
    ensures AllWhitespace(s[..|s| - |TrimStart(s)|])
    ensures TrimStart(s) == [] || !IsWhitespace(TrimStart(s)[0])
    decreases |s|
  {
    if s != [] && IsWhitespace(s[0]) {
      var t := s[1..];
      var r := TrimStart(t);
      assert TrimStart(s) == r;
      TrimStartSpec(t);
      var n := |s| - |r|;
      assert t[n - 1..] == s[n..];
      forall k | 0 <= k < n ensures IsWhitespace(s[..n][k]) {
        if k > 0 {
          assert s[..n][k] == t[..n - 1][k - 1];
        }
      }
    } else {
      assert s[..0] == [];
    }
  }

  /** `TrimEnd` drops exactly the whitespace at the back. */
  lemma {:induction false} TrimEndSpec(s: string)
    ensures |TrimEnd(s)| <= |s| && TrimEnd(s) == s[..|TrimEnd(s)|]
    ensures AllWhitespace(s[|TrimEnd(s)|..])
    ensures TrimEnd(s) == [] || !IsWhitespace(TrimEnd(s)[|TrimEnd(s)| - 1])
    decreases |s|
  {
    if s != [] && IsWhitespace(s[|s| - 1]) {
      var r := TrimEnd(s[..|s| - 1]);
      TrimEndSpec(s[..|s| - 1]);
      assert s[..|s| - 1][..|r|] == s[..|r|];
      forall k | 0 <= k < |s| - |r| ensures IsWhitespace(s[|r|..][k]) {
        if k < |s| - 1 - |r| {
          assert s[|r|..][k] == s[..|s| - 1][|r|..][k];
        }
      }
    }
  }

  /** Stripping any whitespace from the front of a string that does not start
      with whitespace gives that string back. */
  lemma {:induction false} TrimStartUnique(s: string, lead: string, rest: string)
    requires s == lead + rest && AllWhitespace(lead)
    requires rest == [] || !IsWhitespace(rest[0])
    ensures TrimStart(s) == rest
    decreases |lead|
  {
    if lead == [] {
      assert s == rest;
    } else {
      assert s[0] == lead[0];
      assert s[1..] == lead[1..] + rest;
      TrimStartUnique(s[1..], lead[1..], rest);
    }
  }

  /** Stripping any whitespace from the back of a string that does not end
      with whitespace gives that string back. */
  lemma {:induction false} TrimEndUnique(s: string, rest: string, trail: string)
    requires s == rest + trail && AllWhitespace(trail)
    requires rest == [] || !IsWhitespace(rest[|rest| - 1])
    ensures TrimEnd(s) == rest
    decreases |trail|
  {
    if trail == [] {
      assert s == rest;
    } else {
      var t := trail[..|trail| - 1];
      assert s[|s| - 1] == trail[|trail| - 1];
      assert s[..|s| - 1] == rest + t;
      TrimEndUnique(s[..|s| - 1], rest, t);
    }
  }

  /** `Trim` finds the one trimmed core of `s`: whenever `s` is whitespace, a
      trimmed string and whitespace, in that order, the core is that string. */
  lemma TrimUnique(s: string, lead: string, core: string, trail: string)
    requires s == lead + core + trail
    requires AllWhitespace(lead) && AllWhitespace(trail) && Trimmed(core)
    ensures Trim(s) == core
  {
    if core == [] {
      AllWhitespaceAppend(lead, trail);
      TrimStartUnique(s, lead + trail, []);
      TrimEndUnique([], [], []);
    } else {
      TrimStartUnique(s, lead, core + trail);
      TrimEndUnique(core + trail, core, trail);
    }
  }

  lemma AllWhitespaceAppend(a: string, b: string)
    requires AllWhitespace(a) && AllWhitespace(b)
    ensures AllWhitespace(a + b)
  {
    forall k | 0 <= k < |a + b| ensures IsWhitespace((a + b)[k]) {
      if k < |a| { assert (a + b)[k] == a[k]; } else { assert (a + b)[k] == b[k - |a|]; }
    }
  }

  /** Splitting a string and regrouping a concatenation. Kept as lemmas so that
      the proofs below see these sequence facts only for the terms they name. */
  lemma SplitAt(x: string, n: nat)
    requires n <= |x|
    ensures x == x[..n] + x[n..]
  {
  }

  lemma Assoc(a: string, b: string, c: string)
    ensures a + (b + c) == a + b + c
  {
  }

  /** `Trim(s)` is `s` without some whitespace before and after it. */
  lemma TrimSplits(s: string) returns (lead: string, trail: string)
    ensures s == lead + Trim(s) + trail
    ensures AllWhitespace(lead) && AllWhitespace(trail)
  {
    var ts := TrimStart(s);
    var te := TrimEnd(ts);
    assert Trim(s) == te;
    assert |ts| <= |s| by { TrimStartSpec(s); }
    assert |te| <= |ts| by { TrimEndSpec(ts); }
    lead := s[..|s| - |ts|];
    trail := ts[|te|..];
    assert s == lead + ts && AllWhitespace(lead) by {
      TrimStartSpec(s);
      SplitAt(s, |s| - |ts|);
    }
    assert ts == te + trail && AllWhitespace(trail) by {
      TrimEndSpec(ts);
      SplitAt(ts, |te|);
    }
    Assoc(lead, te, trail);
  }

  /** `Trim(s)` neither starts nor ends with whitespace. */
  lemma TrimTrimmed(s: string)
    ensures Trimmed(Trim(s))
  {
    var ts := TrimStart(s);
    var te := TrimEnd(ts);
    assert Trim(s) == te;
    TrimStartSpec(s);
    TrimEndSpec(ts);
    if te != [] {
      assert te[0] == ts[0];
    }
  }

  /** What one line typed at the confirmation prompt means. */
  datatype Answer = Accept | Abort | AskAgain

  /** The match on the trimmed input line: "y"/"Y" accepts, an empty line or
      "n"/"N" aborts, anything else asks again. */
  function ClassifyAnswer(input: string): (a: Answer)
  {
    match Trim(input)
    case "y" => Accept
    case "Y" => Accept
    case "" => Abort
    case "n" => Abort
    case "N" => Abort
    case _ => AskAgain
  }

  /** Only the trimmed line matters: whitespace around an answer (the newline
      that ends every line read from the terminal, say) never changes it. */
  lemma ClassifyIgnoresWhitespace(lead: string, input: string, trail: string)
    requires AllWhitespace(lead) && AllWhitespace(trail)
    ensures ClassifyAnswer(lead + input + trail) == ClassifyAnswer(input)
  {
    var l, t := TrimSplits(input);
    TrimTrimmed(input);
    var all := lead + input + trail;
    assert input == l + Trim(input) + t;
    assert all == (lead + l) + Trim(input) + (t + trail);
    AllWhitespaceAppend(lead, l);
    AllWhitespaceAppend(t, trail);
    TrimUnique(all, lead + l, Trim(input), t + trail);
  }

  /** `"y\n"` trims to `"y"`. */
  lemma AcceptLine()
    ensures ClassifyAnswer("y\n") == Accept
  {
    assert TrimStart("y\n") == "y\n";
    assert "y\n"[..1] == "y";
    assert TrimEnd("y\n") == TrimEnd("y");
  }

  /** `"N\n"` trims to `"N"` and a bare newline to the empty string. */
  lemma AbortLines()
    ensures ClassifyAnswer("N\n") == Abort
    ensures ClassifyAnswer("\n") == Abort
  {
    assert TrimStart("N\n") == "N\n";
    assert "N\n"[..1] == "N";
    assert TrimEnd("N\n") == TrimEnd("N");
    assert "\n"[1..] == "";
  }

  /** `"yes\n"` trims to `"yes"`, which is none of the decisive answers. */
  lemma AskAgainLine()
    ensures ClassifyAnswer("yes\n") == AskAgain
  {
    assert TrimStart("yes\n") == "yes\n";
    assert "yes\n"[..3] == "yes";
    assert TrimEnd("yes\n") == TrimEnd("yes");
    assert "yes"[2] == 's';
  }

  /** Whether the user confirms, given the lines standard input delivers: the
      first line that is not asked again decides; at end of input the line read
      is empty, which aborts. */
  function Confirms(lines: seq<string>): (confirmed: bool)
  {
    if lines == [] then false
    else
      match ClassifyAnswer(lines[0])
      case Accept => true
      case Abort => false
      case AskAgain => Confirms(lines[1..])
  }

  /** At end of input `read_line` leaves the line empty, which aborts. */
  lemma EndOfInputAborts()
    ensures ClassifyAnswer("") == Abort
  {
    TrimUnique("", "", "", "");
  }

  /** The first of the remaining lines decides, unless it asks again. */
  lemma ConfirmsUnfold(lines: seq<string>, i: nat)
    requires i < |lines|
    ensures Confirms(lines[i..]) <==>
      ClassifyAnswer(lines[i]) == Accept || (ClassifyAnswer(lines[i]) == AskAgain && Confirms(lines[i + 1..]))
  {
    assert lines[i..][0] == lines[i];
    assert lines[i..][1..] == lines[i + 1..];
  }

  /** `let_user_confirm`: prompt, read a line, classify it; repeat until the
      answer accepts (return) or aborts (the program exits with status 0). */
  method LetUserConfirm(stdin: seq<string>) returns (confirmed: bool)
    ensures confirmed == Confirms(stdin)
  {
    var i := 0;
    while true
      invariant i <= |stdin|
      invariant Confirms(stdin) == Confirms(stdin[i..])
      decreases |stdin| - i
    {
      var input := if i < |stdin| then stdin[i] else "";
      if i == |stdin| {
        EndOfInputAborts();
      } else {
        ConfirmsUnfold(stdin, i);
      }
      var answer := ClassifyAnswer(input);
      if answer == Accept {
        return true;
      } else if answer == Abort {
        return false;
      }
      i := i + 1;
    }
  }

  /** Confirmation means some line accepts and every line before it asks again. */
  lemma {:induction false} ConfirmsFirstDecisive(lines: seq<string>, k: nat)
    requires k < |lines| && ClassifyAnswer(lines[k]) != AskAgain
    requires forall j :: 0 <= j < k ==> ClassifyAnswer(lines[j]) == AskAgain
    ensures Confirms(lines) <==> ClassifyAnswer(lines[k]) == Accept
    decreases k
  {
    if k > 0 {
      ConfirmsFirstDecisive(lines[1..], k - 1);
    }
  }

  /** Input that never gives a decisive answer ends in end of input, which aborts. */
  lemma {:induction false} UndecidedAborts(lines: seq<string>)
    requires forall j :: 0 <= j < |lines| ==> ClassifyAnswer(lines[j]) == AskAgain
    ensures !Confirms(lines)
    decreases |lines|
  {
    if lines != [] {
      UndecidedAborts(lines[1..]);
    }
  }

  /** Once a line decides, `let_user_confirm` reads no further: whatever
      follows the deciding line, the decision is the same. */
  lemma {:induction false} ConfirmsIgnoresLaterLines(lines: seq<string>, k: nat, later: seq<string>)
    requires k < |lines| && ClassifyAnswer(lines[k]) != AskAgain
    requires forall j :: 0 <= j < k ==> ClassifyAnswer(lines[j]) == AskAgain
    ensures Confirms(lines[..k + 1] + later) == Confirms(lines)
  {
    var cut := lines[..k + 1] + later;
    forall j | 0 <= j <= k ensures cut[j] == lines[j] {
    }
    ConfirmsFirstDecisive(lines, k);
    ConfirmsFirstDecisive(cut, k);
  }

  /** What the size check in `main` decides before any file is touched. */
  datatype GateDecision = Proceed | Refuse | AskConfirmation

  /** Without `--exceed` a size above `MAXSIZE` is refused and any other size
      proceeds unasked; with `--exceed` the user is always asked. */
  function SizeGate(size: u64, exceed: bool): (g: GateDecision)
    ensures g == Refuse <==> !exceed && size > MAXSIZE
    ensures g == Proceed <==> !exceed && size <= MAXSIZE
    ensures g == AskConfirmation <==> exceed
  {
    if !exceed then
      if size > MAXSIZE then Refuse else Proceed
    else
      AskConfirmation
  }

  /** Whether content of `size` bytes gets generated past the gate. */
  predicate Admitted(size: u64, exceed: bool, stdin: seq<string>)
  {
    match SizeGate(size, exceed)
    case Proceed => true
    case Refuse => false
    case AskConfirmation => Confirms(stdin)
  }
}
