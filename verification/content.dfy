/** The exact-size content pipeline: draw filler tokens until the byte budget is
    (about to be) met, drop the last token and pad with "-" up to the exact size,
    then concatenate the tokens in order. */
module Content {
  import opened Bytes

  /** The filler vocabulary, in table order. */
  const LOREM: seq<string> := [
    " ", "\n", "et", "est", "elit", "wasd", " ", "dolor", "labore", "eiusmod", "aliquaer", "adipisici"
  ]

  /** The values `gen_range(0..=(LOREM.len() - 1) as u8)` can return. */
  type LoremIndex = i: int | 0 <= i < 12

  /** The single-byte token used to pad the content up to the exact size. */
  const PAD: string := "-"

  /** Every table entry is ASCII, non-empty and at most nine bytes long, so any
      index the random draw yields selects a token of 1 to 9 bytes. */
  lemma LoremTokens(i: LoremIndex)
    ensures |LOREM| == 12
    ensures IsAscii(LOREM[i]) && 1 <= ByteLen(LOREM[i]) <= 9
  {
    assert IsAscii(LOREM[i]);
    AsciiByteLen(LOREM[i]);
  }

  /** Total byte length of a token sequence: what `length` accumulates. */
  function TotalLen(tokens: seq<string>): (n: nat)
  {
    if tokens == [] then 0 else TotalLen(tokens[..|tokens| - 1]) + ByteLen(tokens[|tokens| - 1])
  }

  /** The tokens that remain after `Vec::pop` (nothing is popped from an empty vector). */
  function AllButLast(tokens: seq<string>): (r: seq<string>)
    ensures |r| == if tokens == [] then 0 else |tokens| - 1
    ensures r == tokens[..|r|]
  {
    if tokens == [] then [] else tokens[..|tokens| - 1]
  }

  /** `n` padding tokens. */
  function Dashes(n: nat): (r: seq<string>)
    ensures |r| == n && forall k :: 0 <= k < n ==> r[k] == PAD
  {
    seq(n, _ => PAD)
  }

  lemma {:induction false} TotalLenAppend(a: seq<string>, b: seq<string>)
    ensures TotalLen(a + b) == TotalLen(a) + TotalLen(b)
    decreases |b|
  {
    if b == [] {
      assert a + b == a;
    } else {
      var b' := b[..|b| - 1];
      assert (a + b)[..|a + b| - 1] == a + b';
      TotalLenAppend(a, b');
    }
  }

  /** Each padding token is one byte, so `n` of them make `n` bytes. */
  lemma {:induction false} TotalLenDashes(n: nat)
    ensures TotalLen(Dashes(n)) == n
    decreases n
  {
    if n > 0 {
      assert Dashes(n)[..n - 1] == Dashes(n - 1);
      assert ByteLen(PAD) == 1 by { AsciiByteLen(PAD); }
      TotalLenDashes(n - 1);
    }
  }

  /** A longer prefix is never shorter in bytes. */
  lemma TotalLenPrefix(tokens: seq<string>, i: nat, j: nat)
    requires i <= j <= |tokens|
    ensures TotalLen(tokens[..i]) <= TotalLen(tokens[..j])
  {
    assert tokens[..j] == tokens[..i] + tokens[i..j];
    TotalLenAppend(tokens[..i], tokens[i..j]);
  }

  /** `make_string`: the tokens concatenated in order. */
  function MakeString(content: seq<string>): (s: string)
  {
    if content == [] then "" else MakeString(content[..|content| - 1]) + content[|content| - 1]
  }

  /** The byte length of the string is the total byte length of the tokens. */
  lemma {:induction false} MakeStringByteLen(content: seq<string>)
    ensures ByteLen(MakeString(content)) == TotalLen(content)
    decreases |content|
  {
    if content != [] {
      var init := content[..|content| - 1];
      MakeStringByteLen(init);
      ByteLenAppend(MakeString(init), content[|content| - 1]);
    }
  }

  /** Concatenation distributes over splitting the token sequence: joining the
      strings of two consecutive chunks gives the string of the whole, which is
      why an ordered parallel collect yields the same string as a sequential one. */
  lemma {:induction false} MakeStringAppend(a: seq<string>, b: seq<string>)
    ensures MakeString(a + b) == MakeString(a) + MakeString(b)
    decreases |b|
  {
    if b == [] {
      assert a + b == a;
    } else {
      var b', last := b[..|b| - 1], b[|b| - 1];
      assert (a + b)[..|a + b| - 1] == a + b';
      calc {
        MakeString(a + b);
        MakeString(a + b') + last;
        { MakeStringAppend(a, b'); }
        MakeString(a) + MakeString(b') + last;
        MakeString(a) + MakeString(b);
      }
    }
  }

  /** The unit test's example: seven tokens join to "This is a test". */
  lemma MakeStringExample()
    ensures MakeString(["This", " ", "is", " ", "a", " ", "test"]) == "This is a test"
  {
    var t := ["This", " ", "is", " ", "a", " ", "test"];
    assert t[..1][..0] == [];
    assert t[..2][..1] == t[..1];
    assert t[..3][..2] == t[..2];
    assert t[..4][..3] == t[..3];
    assert t[..5][..4] == t[..4];
    assert t[..6][..5] == t[..5];
    assert t[..7] == t;
    assert MakeString(t[..1]) == "This";
    assert MakeString(t[..2]) == "This ";
    assert MakeString(t[..3]) == "This is";
    assert MakeString(t[..4]) == "This is ";
    assert MakeString(t[..5]) == "This is a";
    assert MakeString(t[..6]) == "This is a ";
  }

  /** The tokens are the table entries selected by the first draws, in order. */
  ghost predicate Drawn(content: seq<string>, draw: nat -> LoremIndex)
  {
    forall j :: 0 <= j < |content| ==> content[j] == LOREM[draw(j)]
  }

  /** A drawn token is at most nine bytes long. */
  lemma DrawnTokenBound(content: seq<string>, draw: nat -> LoremIndex, j: nat)
    requires Drawn(content, draw) && j < |content|
    ensures ByteLen(content[j]) <= 9
  {
    LoremTokens(draw(j));
  }

  /** Every proper prefix of the content stays below the byte budget: each
      token was pushed while the running total was still below `size`. */
  ghost predicate BelowBudget(content: seq<string>, size: nat)
  {
    forall j :: 0 <= j < |content| ==> PrefixLen(content, j) < size
  }

  /** Byte length of the first `j` tokens. */
  function PrefixLen(content: seq<string>, j: nat): (n: nat)
    requires j <= |content|
  {
    TotalLen(content[..j])
  }

  /** Pushing the table entry of the next draw keeps the tokens the draws, in order. */
  lemma DrawnPush(content: seq<string>, draw: nat -> LoremIndex)
    requires Drawn(content, draw)
    ensures Drawn(content + [LOREM[draw(|content|)]], draw)
  {
  }

  /** Pushing a token while the running total is below `size` keeps every
      proper prefix below `size`; popping it again gives the old content. */
  lemma PushBelowBudget(content: seq<string>, token: string, size: nat)
    requires BelowBudget(content, size) && TotalLen(content) < size
    ensures BelowBudget(content + [token], size)
    ensures AllButLast(content + [token]) == content
  {
    var pushed := content + [token];
    forall j | 0 <= j < |pushed| ensures PrefixLen(pushed, j) < size {
      if j < |content| {
        assert pushed[..j] == content[..j];
        assert PrefixLen(content, j) < size;
      } else {
        assert pushed[..j] == content;
      }
    }
    assert pushed[..|content|] == content;
  }

  /** `generate_random_filecontent`: for each of the iterations `1..size` it adds
      the byte length of the last token pushed to `length`, stops once `length`
      reaches `size`, and otherwise pushes the table entry of the next draw.
      On success the result is determined by the draws: it is the shortest run
      of drawn tokens that reaches `size` bytes, cut off after `size - 1` tokens. */
  method GenerateRandomFilecontent(size: u64, draw: nat -> LoremIndex) returns (r: Result<seq<string>>)
    ensures r.Ok? ==> Drawn(r.value, draw)
    ensures r.Ok? ==> size <= 1 ==> r.value == []
    ensures r.Ok? ==> |r.value| < size || r.value == []
    ensures r.Ok? ==> BelowBudget(r.value, size)
    ensures r.Ok? ==> TotalLen(r.value) >= size || |r.value| + 1 == size
    ensures r.Err? ==> r.error == AddOverflow && size + 8 > U64_MAX
  {
    var content: seq<string> := [];
    var length: u64 := 0;
    var k: u64 := 1;
    while k < size
      invariant k == |content| + 1
      invariant |content| < size || content == []
      invariant Drawn(content, draw)
      invariant BelowBudget(content, size)
      invariant length == TotalLen(AllButLast(content))
      invariant content == [] || length < size
    {
      var last := if content == [] then "" else content[|content| - 1];
      assert length + ByteLen(last) == TotalLen(content);
      assert length + ByteLen(last) < size + 9 by {
        if content != [] {
          DrawnTokenBound(content, draw, |content| - 1);
        }
      }
      if length + ByteLen(last) > U64_MAX {
        return Err(AddOverflow);
      }
      length := length + ByteLen(last);
      if length >= size {
        return Ok(content);
      }
      var i := draw(|content|);
      PushBelowBudget(content, LOREM[i], size);
      DrawnPush(content, draw);
      content := content + [LOREM[i]];
      k := k + 1;
    }
    r := Ok(content);
  }

  /** What shrinking makes of `content` when the subtraction succeeds: all tokens
      but the last, in their order, followed by as many "-" as bytes are missing. */
  function Shrunk(content: seq<string>, size: nat): (r: seq<string>)
    requires TotalLen(AllButLast(content)) <= size
    ensures TotalLen(r) == size
    ensures |AllButLast(content)| <= |r| && r[..|AllButLast(content)|] == AllButLast(content)
    ensures forall k :: |AllButLast(content)| <= k < |r| ==> r[k] == PAD
  {
    var rest := AllButLast(content);
    var r := rest + Dashes(size - TotalLen(rest));
    TotalLenAppend(rest, Dashes(size - TotalLen(rest)));
    TotalLenDashes(size - TotalLen(rest));
    assert r[..|rest|] == rest;
    r
  }

  /** The three-token example of the content generator: from ["one","two","three"]
      and a size of 8, "three" is dropped and two dashes are added. */
  lemma ShrunkExample()
    ensures TotalLen(AllButLast(["one", "two", "three"])) == 6
    ensures Shrunk(["one", "two", "three"], 8) == ["one", "two", "-", "-"]
  {
    var c := ["one", "two", "three"];
    assert AllButLast(c) == ["one", "two"];
    assert TotalLen(["one", "two"]) == 6 by {
      assert ["one", "two"][..1] == ["one"];
      assert ["one"][..0] == [];
      AsciiByteLen("one");
      AsciiByteLen("two");
    }
  }

  /** The `Vec<&str>` that `main` owns and lends mutably to the shrinking step. */
  class TokenVec {
    var items: seq<string>

    constructor (init: seq<string>)
      ensures items == init
    {
      items := init;
    }

    /** `Vec::push`. */
    method Push(s: string)
      modifies this
      ensures items == old(items) + [s]
    {
      items := items + [s];
    }

    /** `Vec::pop`: the last token, if any, removed. */
    method Pop() returns (last: Option<string>)
      modifies this
      ensures items == AllButLast(old(items))
      ensures last == if old(items) == [] then None else Some(old(items)[|old(items)| - 1])
    {
      if items == [] {
        last := None;
      } else {
        last := Some(items[|items| - 1]);
        items := items[..|items| - 1];
      }
    }
  }

  datatype Option<T> = None | Some(value: T)

  /** `shrink_content_to_exact_size`: pops the last token from the caller's
      vector, re-sums the remaining byte lengths into a `u64`, computes the
      unchecked `size - length` and pushes that many "-" tokens, then returns a
      copy of the vector. The two `u64` operations panic when they leave the range. */
  method ShrinkContentToExactSize(content: TokenVec, size: u64) returns (r: Result<seq<string>>)
    modifies content
    ensures TotalLen(AllButLast(old(content.items))) > U64_MAX ==>
              r == Err(AddOverflow) && content.items == AllButLast(old(content.items))
    ensures size < TotalLen(AllButLast(old(content.items))) <= U64_MAX ==>
              r == Err(SubtractOverflow) && content.items == AllButLast(old(content.items))
    ensures TotalLen(AllButLast(old(content.items))) <= size ==>
              content.items == Shrunk(old(content.items), size) && r == Ok(content.items)
  {
    var _ := content.Pop();
    var length: u64 := 0;
    var i := 0;
    while i < |content.items|
      invariant i <= |content.items|
      invariant content.items == AllButLast(old(content.items))
      invariant length == TotalLen(content.items[..i])
    {
      var s := content.items[i];
      assert content.items[..i + 1][..i] == content.items[..i];
      if length + ByteLen(s) > U64_MAX {
        TotalLenPrefix(content.items, i + 1, |content.items|);
        assert content.items[..|content.items|] == content.items;
        return Err(AddOverflow);
      }
      length := length + ByteLen(s);
      i := i + 1;
    }
    assert content.items[..i] == content.items;
    if length > size {
      return Err(SubtractOverflow);
    }
    var complement: u64 := size - length;
    ghost var rest := content.items;
    var j := 1;
    while j <= complement
      invariant 1 <= j <= complement + 1
      invariant content.items == rest + Dashes(j - 1)
    {
      content.Push(PAD);
      assert Dashes(j) == Dashes(j - 1) + [PAD];
      j := j + 1;
    }
    assert content.items == Shrunk(old(content.items), size) by {
      assert content.items == rest + Dashes(size - TotalLen(rest));
    }
    r := Ok(content.items);
  }

  /** Generating without panicking leaves all tokens but the last strictly below
      the budget, so the subtraction in the shrinking step cannot underflow. */
  lemma GeneratedFitsShrink(content: seq<string>, size: nat)
    requires BelowBudget(content, size)
    ensures TotalLen(AllButLast(content)) <= size
    ensures content != [] ==> TotalLen(AllButLast(content)) < size
  {
    if content != [] {
      assert PrefixLen(content, |content| - 1) < size;
    }
  }

  /** Lines 121-123 of `main`: generate, shrink in place, concatenate. Whatever
      the draws, the string has exactly `size` bytes (and characters); the only
      failure is the counter overflow of a size within 8 of the `u64` maximum. */
  method GenerateExactContent(size: u64, draw: nat -> LoremIndex) returns (r: Result<string>)
    ensures r.Ok? ==> ByteLen(r.value) == size && |r.value| == size
    ensures r.Err? ==> r.error == AddOverflow && size + 8 > U64_MAX
    ensures size == 0 ==> r == Ok("")
  {
    var generated := GenerateRandomFilecontent(size, draw);
    if generated.Err? {
      return Err(generated.error);
    }
    GeneratedFitsShrink(generated.value, size);
    var content := new TokenVec(generated.value);
    var shrunk := ShrinkContentToExactSize(content, size);
    assert shrunk == Ok(Shrunk(generated.value, size));
    var s := MakeString(shrunk.value);
    MakeStringByteLen(shrunk.value);
    MadeOfAscii(generated.value, size, draw);
    AsciiByteLen(s);
    r := Ok(s);
  }

  /** The shrunk content of drawn tokens consists of ASCII tokens only, so its
      string is ASCII. */
  lemma MadeOfAscii(content: seq<string>, size: nat, draw: nat -> LoremIndex)
    requires Drawn(content, draw)
    requires TotalLen(AllButLast(content)) <= size
    ensures IsAscii(MakeString(Shrunk(content, size)))
  {
    var s := Shrunk(content, size);
    forall k | 0 <= k < |s| ensures IsAscii(s[k]) {
      if k < |AllButLast(content)| {
        assert s[k] == content[k];
        LoremTokens(draw(k));
      } else {
        assert IsAscii(PAD);
      }
    }
    AsciiTokens(s);
  }

  lemma {:induction false} AsciiTokens(tokens: seq<string>)
    requires forall k :: 0 <= k < |tokens| ==> IsAscii(tokens[k])
    ensures IsAscii(MakeString(tokens))
    decreases |tokens|
  {
    if tokens != [] {
      var init := tokens[..|tokens| - 1];
      AsciiTokens(init);
      var a := MakeString(init);
      var b := tokens[|tokens| - 1];
      assert IsAscii(b);
      forall k | 0 <= k < |a + b| ensures (a + b)[k] as int < 0x80 {
        if k < |a| { assert (a + b)[k] == a[k]; } else { assert (a + b)[k] == b[k - |a|]; }
      }
    }
  }
}
