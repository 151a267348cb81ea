/**
 * setup_stack: maps a zeroed page just below PHYS_BASE and lays out the
 * initial user stack of the 80x86 calling convention in it: the argument
 * strings at the top, then word alignment, argv[argc] = 0, argv[argc-1]
 * down to argv[0], argv, argc and a fake return address, which is where
 * esp ends up.
 */
module Stack {
  import opened Wrappers
  import opened Bytes
  import opened Vaddr
  import opened PageDir
  import opened Strtok

  /** The bytes the argument strings take: every token and its NUL terminator. */
  function StrBytes(toks: seq<seq<byte>>): nat
  {
    if toks == [] then 0 else |toks[0]| + 1 + StrBytes(toks[1..])
  }

  lemma {:induction false} StrBytesAppend(a: seq<seq<byte>>, b: seq<seq<byte>>)
    ensures StrBytes(a + b) == StrBytes(a) + StrBytes(b)
    decreases |a|
  {
    if a == [] {
      assert a + b == b;
    } else {
      assert (a + b)[1..] == a[1..] + b;
      StrBytesAppend(a[1..], b);
    }
  }

  /** The first i + 1 strings take the first i and one more string with its terminator. */
  lemma StrBytesSnoc(toks: seq<seq<byte>>, i: nat)
    requires i < |toks|
    ensures StrBytes(toks[..i + 1]) == StrBytes(toks[..i]) + |toks[i]| + 1
  {
    assert toks[..i + 1] == toks[..i] + [toks[i]];
    StrBytesAppend(toks[..i], [toks[i]]);
  }

  /** A prefix of the strings takes no more room than all of them. */
  lemma StrBytesPrefix(toks: seq<seq<byte>>, j: nat, i: nat)
    requires j <= i <= |toks|
    ensures StrBytes(toks[..j]) <= StrBytes(toks[..i])
  {
    assert toks[..i] == toks[..j] + toks[j..i];
    StrBytesAppend(toks[..j], toks[j..i]);
  }

  /** (n + 3) & ~3: n rounded up to a multiple of 4. */
  function RoundUp4(n: nat): (r: nat)
    ensures r % 4 == 0 && n <= r < n + 4
  {
    n + (4 - n % 4) % 4
  }

  /**
   * The bytes the initial stack takes below PHYS_BASE: the strings rounded
   * up to a word, then argc + 1 argv slots, argv, argc and the return address.
   */
  function StackSize(toks: seq<seq<byte>>): nat
  {
    RoundUp4(StrBytes(toks)) + 4 * (|toks| + 4)
  }

  /** The argument block fits in the one stack page. */
  predicate StackFits(toks: seq<seq<byte>>) {
    StackSize(toks) <= PGSIZE
  }

  /**
   * The offset within the stack page of the copy of argument i: the
   * strings are pushed in order from PHYS_BASE down, so argument 0 is
   * highest.
   */
  function ArgOffset(toks: seq<seq<byte>>, i: nat): (o: nat)
    requires i < |toks| && StrBytes(toks) <= PGSIZE
    ensures o + |toks[i]| + 1 <= PGSIZE
    ensures o + |toks[i]| + 1 + StrBytes(toks[..i]) == PGSIZE
  {
    StrBytesPrefix(toks, i + 1, |toks|);
    StrBytesSnoc(toks, i);
    assert toks[..|toks|] == toks;
    PGSIZE - StrBytes(toks[..i + 1])
  }

  /**
   * The stack page holds the argument block for toks and esp points at
   * its fake return address (offsets are relative to the page, which
   * starts at STACK_PAGE):
   *   esp + 0:  return address 0
   *   esp + 4:  argc
   *   esp + 8:  argv, the address of argv[0]
   *   esp + 12 + 4 i: argv[i], the user address of string i
   *   esp + 12 + 4 argc: argv[argc] = 0
   * and string i sits at its offset followed by a NUL.
   */
  predicate StackLayout(page: seq<byte>, esp: nat, toks: seq<seq<byte>>) {
    && |page| == PGSIZE
    && StackFits(toks)
    && esp == PHYS_BASE - StackSize(toks)
    && StackWords(page, PGSIZE - StackSize(toks), toks)
    && StackStrings(page, toks)
  }

  /** The words of the block whose return address is at offset e of the page. */
  predicate StackWords(page: seq<byte>, e: nat, toks: seq<seq<byte>>)
    requires |page| == PGSIZE && StackFits(toks) && e == PGSIZE - StackSize(toks)
  {
    && U32At(page, e) == 0
    && U32At(page, e + 4) == |toks|
    && U32At(page, e + 8) == STACK_PAGE + e + 12
    && (forall i :: 0 <= i < |toks| ==> U32At(page, e + 12 + 4 * i) == STACK_PAGE + ArgOffset(toks, i))
    && U32At(page, e + 12 + 4 * |toks|) == 0
  }

  /** Every argument string sits at its offset followed by a NUL. */
  predicate StackStrings(page: seq<byte>, toks: seq<seq<byte>>)
    requires |page| == PGSIZE && StrBytes(toks) <= PGSIZE
  {
    && (forall i, k :: 0 <= i < |toks| && 0 <= k < |toks[i]| ==> page[ArgOffset(toks, i) + k] == toks[i][k])
    && (forall i :: 0 <= i < |toks| ==> page[ArgOffset(toks, i) + |toks[i]|] == 0)
  }

  /** The copies of two different arguments do not overlap: a later argument lies wholly below an earlier one. */
  lemma ArgsDisjoint(toks: seq<seq<byte>>, j: nat, i: nat)
    requires j < i < |toks| && StrBytes(toks) <= PGSIZE
    ensures ArgOffset(toks, i) + |toks[i]| + 1 <= ArgOffset(toks, j)
    ensures i == j + 1 ==> ArgOffset(toks, i) + |toks[i]| + 1 == ArgOffset(toks, j)
  {
    StrBytesSnoc(toks, j);
    StrBytesPrefix(toks, j + 1, i);
  }

  /** The words of the block lie below the strings, so writing one never touches the other. */
  lemma WordsBelowStrings(toks: seq<seq<byte>>, i: nat)
    requires i < |toks| && StackFits(toks)
    ensures PGSIZE - StackSize(toks) + 16 + 4 * |toks| <= ArgOffset(toks, i)
  {
    StrBytesPrefix(toks, i + 1, |toks|);
    StrBytesSnoc(toks, i);
    assert toks[..|toks|] == toks;
  }

  /**
   * A command line of at most (PGSIZE - 22) / 3 bytes always fits: the
   * strings take at most one byte more than the line, and there are at
   * most half as many words as bytes.
   */
  lemma {:induction false} ShortCommandLineFits(s: seq<byte>)
    requires 3 * |s| + 22 <= PGSIZE
    ensures StackFits(Tokens(s))
  {
    TokensAreWords(s);
    TokensBytes(s);
  }

  /** The strings of the tokens of s take at most |s| + 1 bytes. */
  lemma {:induction false} TokensBytes(s: seq<byte>)
    ensures StrBytes(Tokens(s)) <= |s| + 1
    decreases |s|
  {
    if s == [] {
    } else if s[0] == SPACE {
      TokensBytes(s[1..]);
    } else {
      var n := WordLen(s);
      TokensBytes(s[n..]);
      if n < |s| {
        TokensBytes(s[n + 1..]);
        assert Tokens(s[n..]) == Tokens(s[n + 1..]);
      }
      assert ([s[..n]] + Tokens(s[n..]))[1..] == Tokens(s[n..]);
    }
  }

  /** The page s with the n low-order bytes of x stored at offset at, least significant first. */
  function PutLE(s: seq<byte>, at: nat, x: nat, n: nat): (r: seq<byte>)
    requires at + n <= |s|
    ensures |r| == |s|
    decreases n
  {
    if n == 0 then s else PutLE(s[at := x % 0x100], at + 1, x / 0x100, n - 1)
  }

  /** Storing n bytes leaves every other byte unchanged. */
  lemma {:induction false} PutLEFrame(s: seq<byte>, at: nat, x: nat, n: nat)
    requires at + n <= |s|
    ensures forall o :: 0 <= o < |s| && !(at <= o < at + n) ==> PutLE(s, at, x, n)[o] == s[o]
    decreases n
  {
    if n > 0 {
      PutLEFrame(s[at := x % 0x100], at + 1, x / 0x100, n - 1);
    }
  }

  /** The page s with the 32-bit word w stored little-endian at offset at: *(uint32_t *) p = w. */
  function PutWord(s: seq<byte>, at: nat, w: u32): (r: seq<byte>)
    requires at + 4 <= |s|
    ensures |r| == |s|
  {
    PutLE(s, at, w, 4)
  }

  /** The four bytes of a word, least significant first, put back together give the word. */
  lemma WordDigits(w: u32)
    ensures w % 0x100 + 0x100 * (w / 0x100 % 0x100)
      + U16_LIMIT * (w / 0x100 / 0x100 % 0x100 + 0x100 * (w / 0x100 / 0x100 / 0x100 % 0x100)) == w
  {
    var a, b := w % 0x100, w / 0x100;
    var c, d := b % 0x100, b / 0x100;
    var e, f := d % 0x100, d / 0x100;
    assert w == a + 0x100 * b && b == c + 0x100 * d && d == e + 0x100 * f;
    assert f < 0x100;
  }

  /** Reading back the stored word gives w, and every other byte is unchanged. */
  lemma PutWordFacts(s: seq<byte>, at: nat, w: u32)
    requires at + 4 <= |s|
    ensures U32At(PutWord(s, at, w), at) == w
    ensures forall o :: 0 <= o < |s| && !(at <= o < at + 4) ==> PutWord(s, at, w)[o] == s[o]
  {
    PutLEFrame(s, at, w, 4);
    PutWordBytes(s, at, w);
    WordDigits(w);
  }

  /** Storing a word is storing its four bytes one after another. */
  lemma PutWordBytes(s: seq<byte>, at: nat, w: u32)
    requires at + 4 <= |s|
    ensures PutWord(s, at, w)
         == s[at := w % 0x100][at + 1 := w / 0x100 % 0x100][at + 2 := w / 0x100 / 0x100 % 0x100][at + 3 := w / 0x100 / 0x100 / 0x100 % 0x100]
  {
    var x1 := w / 0x100;
    var x2 := x1 / 0x100;
    var x3 := x2 / 0x100;
    var s1 := s[at := w % 0x100];
    var s2 := s1[at + 1 := x1 % 0x100];
    var s3 := s2[at + 2 := x2 % 0x100];
    var s4 := s3[at + 3 := x3 % 0x100];
    assert PutLE(s3, at + 3, x3, 1) == PutLE(s4, at + 4, x3 / 0x100, 0) == s4;
    assert PutLE(s2, at + 2, x2, 2) == s4;
    assert PutLE(s1, at + 1, x1, 3) == s4;
  }

  /** Storing a word leaves every word that does not overlap it unchanged. */
  lemma PutWordKeeps(s: seq<byte>, at: nat, w: u32, j: nat)
    requires at + 4 <= |s| && j + 4 <= |s| && (j + 4 <= at || at + 4 <= j)
    ensures U32At(PutWord(s, at, w), j) == U32At(s, j)
  {
    PutLEFrame(s, at, w, 4);
    U32AtSame(s, PutWord(s, at, w), j);
  }

  /** The page s with tok and a NUL terminator copied to offset at. */
  function PutString(s: seq<byte>, at: nat, tok: seq<byte>): (r: seq<byte>)
    requires at + |tok| < |s|
    ensures |r| == |s|
    decreases |tok|
  {
    if tok == [] then s[at := 0] else PutString(s[at := tok[0]], at + 1, tok[1..])
  }

  /** The copied bytes read back as tok and its NUL, and every other byte is unchanged. */
  lemma {:induction false} PutStringFacts(s: seq<byte>, at: nat, tok: seq<byte>)
    requires at + |tok| < |s|
    ensures forall o :: at <= o < at + |tok| ==> PutString(s, at, tok)[o] == tok[o - at]
    ensures PutString(s, at, tok)[at + |tok|] == 0
    ensures forall o :: 0 <= o < |s| && !(at <= o <= at + |tok|) ==> PutString(s, at, tok)[o] == s[o]
    decreases |tok|
  {
    if tok != [] {
      PutStringFacts(s[at := tok[0]], at + 1, tok[1..]);
    }
  }

  /** The stack page once the copy loop has pushed the first i tokens. */
  function PushedStrings(s: seq<byte>, toks: seq<seq<byte>>, i: nat): (r: seq<byte>)
    requires |s| == PGSIZE && i <= |toks| && StrBytes(toks) <= PGSIZE
    ensures |r| == PGSIZE
  {
    if i == 0 then s else PutString(PushedStrings(s, toks, i - 1), ArgOffset(toks, i - 1), toks[i - 1])
  }

  /** After i tokens are pushed, token j < i sits at its offset followed by its NUL. */
  lemma {:induction false} PushedStringAt(s: seq<byte>, toks: seq<seq<byte>>, i: nat, j: nat)
    requires |s| == PGSIZE && j < i <= |toks| && StrBytes(toks) <= PGSIZE
    ensures forall k :: 0 <= k < |toks[j]| ==> PushedStrings(s, toks, i)[ArgOffset(toks, j) + k] == toks[j][k]
    ensures PushedStrings(s, toks, i)[ArgOffset(toks, j) + |toks[j]|] == 0
  {
    var prev := PushedStrings(s, toks, i - 1);
    PutStringFacts(prev, ArgOffset(toks, i - 1), toks[i - 1]);
    if j < i - 1 {
      PushedStringAt(s, toks, i - 1, j);
      ArgsDisjoint(toks, j, i - 1);
    }
  }

  /** Pushing the first i tokens leaves every byte below them unchanged. */
  lemma {:induction false} PushedStringsBelow(s: seq<byte>, toks: seq<seq<byte>>, i: nat)
    requires |s| == PGSIZE && i <= |toks| && StrBytes(toks) <= PGSIZE
    ensures forall o :: 0 <= o < PGSIZE - StrBytes(toks[..i]) ==> PushedStrings(s, toks, i)[o] == s[o]
  {
    if i > 0 {
      PushedStringsBelow(s, toks, i - 1);
      PutStringFacts(PushedStrings(s, toks, i - 1), ArgOffset(toks, i - 1), toks[i - 1]);
    }
  }

  /** The user addresses of the argument strings, as the copy loop records them in arg_addrs. */
  function ArgAddrs(toks: seq<seq<byte>>): (r: seq<u32>)
    requires StrBytes(toks) <= PGSIZE
    ensures |r| == |toks|
    ensures forall j :: 0 <= j < |toks| ==> r[j] == STACK_PAGE + ArgOffset(toks, j)
  {
    seq(|toks|, j requires 0 <= j < |toks| => STACK_PAGE + ArgOffset(toks, j))
  }

  /**
   * The stack page once argv[argc] = 0 and the last i entries
   * argv[argc-1] down to argv[argc-i] are written, argv[0] being at base.
   */
  function PushedArgv(s: seq<byte>, base: nat, argAddrs: seq<u32>, i: nat): (r: seq<byte>)
    requires base + 4 * (|argAddrs| + 1) <= |s| && i <= |argAddrs|
    ensures |r| == |s|
  {
    if i == 0 then PutWord(s, base + 4 * |argAddrs|, 0)
    else PutWord(PushedArgv(s, base, argAddrs, i - 1), base + 4 * (|argAddrs| - i), argAddrs[|argAddrs| - i])
  }

  /** Once the last i entries are written, entry argv[j] among them holds arg_addrs[j]. */
  lemma {:induction false} PushedArgvSlot(s: seq<byte>, base: nat, argAddrs: seq<u32>, i: nat, j: nat)
    requires base + 4 * (|argAddrs| + 1) <= |s| && i <= |argAddrs| && |argAddrs| - i <= j < |argAddrs|
    ensures U32At(PushedArgv(s, base, argAddrs, i), base + 4 * j) == argAddrs[j]
  {
    var n := |argAddrs|;
    var prev := PushedArgv(s, base, argAddrs, i - 1);
    if j == n - i {
      PutWordFacts(prev, base + 4 * j, argAddrs[j]);
    } else {
      PushedArgvSlot(s, base, argAddrs, i - 1, j);
      PutWordKeeps(prev, base + 4 * (n - i), argAddrs[n - i], base + 4 * j);
    }
  }

  /** argv[argc] is 0 throughout. */
  lemma {:induction false} PushedArgvNull(s: seq<byte>, base: nat, argAddrs: seq<u32>, i: nat)
    requires base + 4 * (|argAddrs| + 1) <= |s| && i <= |argAddrs|
    ensures U32At(PushedArgv(s, base, argAddrs, i), base + 4 * |argAddrs|) == 0
  {
    var n := |argAddrs|;
    if i == 0 {
      PutWordFacts(s, base + 4 * n, 0);
    } else {
      PushedArgvNull(s, base, argAddrs, i - 1);
      PutWordKeeps(PushedArgv(s, base, argAddrs, i - 1), base + 4 * (n - i), argAddrs[n - i], base + 4 * n);
    }
  }

  /** Writing argv touches no byte outside its slots. */
  lemma {:induction false} PushedArgvFrame(s: seq<byte>, base: nat, argAddrs: seq<u32>, i: nat)
    requires base + 4 * (|argAddrs| + 1) <= |s| && i <= |argAddrs|
    ensures forall o :: 0 <= o < |s| && !(base + 4 * (|argAddrs| - i) <= o < base + 4 * (|argAddrs| + 1)) ==>
      PushedArgv(s, base, argAddrs, i)[o] == s[o]
  {
    var n := |argAddrs|;
    if i == 0 {
      PutWordFacts(s, base + 4 * n, 0);
    } else {
      PushedArgvFrame(s, base, argAddrs, i - 1);
      PutWordFacts(PushedArgv(s, base, argAddrs, i - 1), base + 4 * (n - i), argAddrs[n - i]);
    }
  }

  /**
   * The words of an argument block whose return address is at offset e,
   * written over the page s: argv[argc] and argv[argc-1] down to argv[0]
   * from e + 12 up, then argv (the user address of argv[0]), argc and the
   * return address 0.
   */
  function Block(s: seq<byte>, e: nat, argAddrs: seq<u32>): (r: seq<byte>)
    requires |s| == PGSIZE && e + 16 + 4 * |argAddrs| <= |s| && STACK_PAGE + e + 12 < U32_LIMIT
    ensures |r| == |s|
  {
    var argv := PushedArgv(s, e + 12, argAddrs, |argAddrs|);
    PutWord(PutWord(PutWord(argv, e + 8, STACK_PAGE + e + 12), e + 4, |argAddrs|), e, 0)
  }

  /** The three words at the bottom of the block: return address, argc and argv. */
  lemma BlockHeader(s: seq<byte>, e: nat, argAddrs: seq<u32>)
    requires |s| == PGSIZE && e + 16 + 4 * |argAddrs| <= |s| && STACK_PAGE + e + 12 < U32_LIMIT
    ensures U32At(Block(s, e, argAddrs), e) == 0
    ensures U32At(Block(s, e, argAddrs), e + 4) == |argAddrs|
    ensures U32At(Block(s, e, argAddrs), e + 8) == STACK_PAGE + e + 12
  {
    var n := |argAddrs|;
    var argv := PushedArgv(s, e + 12, argAddrs, n);
    var w1 := PutWord(argv, e + 8, STACK_PAGE + e + 12);
    var w2 := PutWord(w1, e + 4, n);
    PutWordFacts(w2, e, 0);
    PutWordFacts(w1, e + 4, n);
    PutWordKeeps(w2, e, 0, e + 4);
    PutWordFacts(argv, e + 8, STACK_PAGE + e + 12);
    PutWordKeeps(w1, e + 4, n, e + 8);
    PutWordKeeps(w2, e, 0, e + 8);
  }

  /** Slot j of argv[] (j = argc being the terminating null) survives the three header writes. */
  lemma BlockSlot(s: seq<byte>, e: nat, argAddrs: seq<u32>, j: nat)
    requires |s| == PGSIZE && e + 16 + 4 * |argAddrs| <= |s| && STACK_PAGE + e + 12 < U32_LIMIT && j <= |argAddrs|
    ensures U32At(Block(s, e, argAddrs), e + 12 + 4 * j) == U32At(PushedArgv(s, e + 12, argAddrs, |argAddrs|), e + 12 + 4 * j)
  {
    var n := |argAddrs|;
    var argv := PushedArgv(s, e + 12, argAddrs, n);
    var w1 := PutWord(argv, e + 8, STACK_PAGE + e + 12);
    var w2 := PutWord(w1, e + 4, n);
    PutWordKeeps(argv, e + 8, STACK_PAGE + e + 12, e + 12 + 4 * j);
    PutWordKeeps(w1, e + 4, n, e + 12 + 4 * j);
    PutWordKeeps(w2, e, 0, e + 12 + 4 * j);
  }

  /** argv[i] holds arg_addrs[i] and argv[argc] is 0. */
  lemma BlockArgv(s: seq<byte>, e: nat, argAddrs: seq<u32>)
    requires |s| == PGSIZE && e + 16 + 4 * |argAddrs| <= |s| && STACK_PAGE + e + 12 < U32_LIMIT
    ensures forall i :: 0 <= i < |argAddrs| ==> U32At(Block(s, e, argAddrs), e + 12 + 4 * i) == argAddrs[i]
    ensures U32At(Block(s, e, argAddrs), e + 12 + 4 * |argAddrs|) == 0
  {
    PushedArgvNull(s, e + 12, argAddrs, |argAddrs|);
    BlockSlot(s, e, argAddrs, |argAddrs|);
    forall i | 0 <= i < |argAddrs|
      ensures U32At(Block(s, e, argAddrs), e + 12 + 4 * i) == argAddrs[i]
    {
      PushedArgvSlot(s, e + 12, argAddrs, |argAddrs|, i);
      BlockSlot(s, e, argAddrs, i);
    }
  }

  /** The block touches no byte outside [e, e + 16 + 4 argc). */
  lemma BlockFrame(s: seq<byte>, e: nat, argAddrs: seq<u32>)
    requires |s| == PGSIZE && e + 16 + 4 * |argAddrs| <= |s| && STACK_PAGE + e + 12 < U32_LIMIT
    ensures forall o :: 0 <= o < |s| && !(e <= o < e + 16 + 4 * |argAddrs|) ==> Block(s, e, argAddrs)[o] == s[o]
  {
    var n := |argAddrs|;
    var argv := PushedArgv(s, e + 12, argAddrs, n);
    var w1 := PutWord(argv, e + 8, STACK_PAGE + e + 12);
    var w2 := PutWord(w1, e + 4, n);
    PushedArgvFrame(s, e + 12, argAddrs, n);
    PutWordFacts(argv, e + 8, STACK_PAGE + e + 12);
    PutWordFacts(w1, e + 4, n);
    PutWordFacts(w2, e, 0);
  }

  /**
   * The stack page setup_stack leaves for toks, starting from the page s:
   * the strings, then the block of words at PGSIZE - StackSize(toks).
   */
  function StackImage(s: seq<byte>, toks: seq<seq<byte>>): (r: seq<byte>)
    requires |s| == PGSIZE && StackFits(toks)
    ensures |r| == PGSIZE
  {
    Block(PushedStrings(s, toks, |toks|), PGSIZE - StackSize(toks), ArgAddrs(toks))
  }

  /** Every argument string of the stack image sits at its offset, followed by a NUL. */
  lemma StackImageStrings(s: seq<byte>, toks: seq<seq<byte>>, i: nat)
    requires |s| == PGSIZE && StackFits(toks) && i < |toks|
    ensures forall k :: 0 <= k < |toks[i]| ==> StackImage(s, toks)[ArgOffset(toks, i) + k] == toks[i][k]
    ensures StackImage(s, toks)[ArgOffset(toks, i) + |toks[i]|] == 0
  {
    var e := PGSIZE - StackSize(toks);
    BlockFrame(PushedStrings(s, toks, |toks|), e, ArgAddrs(toks));
    WordsBelowStrings(toks, i);
    PushedStringAt(s, toks, |toks|, i);
  }

  lemma StackImageAllStrings(s: seq<byte>, toks: seq<seq<byte>>)
    requires |s| == PGSIZE && StackFits(toks)
    ensures StackStrings(StackImage(s, toks), toks)
  {
    forall i | 0 <= i < |toks|
      ensures forall k :: 0 <= k < |toks[i]| ==> StackImage(s, toks)[ArgOffset(toks, i) + k] == toks[i][k]
      ensures StackImage(s, toks)[ArgOffset(toks, i) + |toks[i]|] == 0
    {
      StackImageStrings(s, toks, i);
    }
  }

  /** Below esp and in the alignment gap above argv[argc], the stack image keeps the bytes of s. */
  lemma StackImageKeeps(s: seq<byte>, toks: seq<seq<byte>>)
    requires |s| == PGSIZE && StackFits(toks)
    ensures forall o :: 0 <= o < PGSIZE - StackSize(toks) ==> StackImage(s, toks)[o] == s[o]
    ensures forall o :: PGSIZE - StackSize(toks) + 16 + 4 * |toks| <= o < PGSIZE - StrBytes(toks) ==>
      StackImage(s, toks)[o] == s[o]
  {
    assert toks[..|toks|] == toks;
    BlockFrame(PushedStrings(s, toks, |toks|), PGSIZE - StackSize(toks), ArgAddrs(toks));
    PushedStringsBelow(s, toks, |toks|);
  }

  /** The words of the stack image are those of the calling convention. */
  lemma StackImageWords(s: seq<byte>, toks: seq<seq<byte>>)
    requires |s| == PGSIZE && StackFits(toks)
    ensures StackWords(StackImage(s, toks), PGSIZE - StackSize(toks), toks)
  {
    var strs := PushedStrings(s, toks, |toks|);
    var e := PGSIZE - StackSize(toks);
    var addrs := ArgAddrs(toks);
    assert StackImage(s, toks) == Block(strs, e, addrs);
    BlockHeader(strs, e, addrs);
    BlockArgv(strs, e, addrs);
    AddressedWords(Block(strs, e, addrs), e, toks);
  }

  /** A page whose argv[] slots hold the entries of ArgAddrs(toks) has the words of the calling convention. */
  lemma AddressedWords(page: seq<byte>, e: nat, toks: seq<seq<byte>>)
    requires |page| == PGSIZE && StackFits(toks) && e == PGSIZE - StackSize(toks)
    requires U32At(page, e) == 0 && U32At(page, e + 4) == |toks| && U32At(page, e + 8) == STACK_PAGE + e + 12
    requires forall i :: 0 <= i < |toks| ==> U32At(page, e + 12 + 4 * i) == ArgAddrs(toks)[i]
    requires U32At(page, e + 12 + 4 * |toks|) == 0
    ensures StackWords(page, e, toks)
  {
    var addrs := ArgAddrs(toks);
    forall i | 0 <= i < |toks|
      ensures U32At(page, e + 12 + 4 * i) == STACK_PAGE + ArgOffset(toks, i)
    {
      assert addrs[i] == STACK_PAGE + ArgOffset(toks, i);
    }
  }

  /** The stack image has the layout of the 80x86 calling convention. */
  lemma StackImageLayout(s: seq<byte>, toks: seq<seq<byte>>)
    requires |s| == PGSIZE && StackFits(toks)
    ensures StackLayout(StackImage(s, toks), PHYS_BASE - StackSize(toks), toks)
  {
    StackImageWords(s, toks);
    StackImageAllStrings(s, toks);
  }

  /** strlcpy (dst, tok, |tok| + 1) into the page at offset at: the bytes of tok and a NUL. */
  method CopyString(page: array<byte>, at: nat, tok: seq<byte>)
    requires at + |tok| < page.Length
    modifies page
    ensures page[..] == PutString(old(page[..]), at, tok)
  {
    forall o | at <= o < at + |tok| {
      page[o] := tok[o - at];
    }
    page[at + |tok|] := 0;
    PutStringFacts(old(page[..]), at, tok);
  }

  /** Stores the 32-bit word w little-endian at offset at: *(uint32_t *) p = w. */
  method WriteWord(page: array<byte>, at: nat, w: u32)
    requires at + 4 <= page.Length
    modifies page
    ensures page[..] == PutWord(old(page[..]), at, w)
  {
    PutWordBytes(page[..], at, w);
    page[at] := w % 0x100;
    page[at + 1] := w / 0x100 % 0x100;
    page[at + 2] := w / 0x100 / 0x100 % 0x100;
    page[at + 3] := w / 0x100 / 0x100 / 0x100 % 0x100;
  }

  /**
   * The counting pass of setup_stack: strtok_r over the command line until
   * it returns NULL. rest plays the part of save_ptr.
   */
  method CountTokens(cmdline: seq<byte>) returns (count: nat)
    ensures count == |Tokens(cmdline)|
  {
    count := 0;
    var rest := cmdline;
    var next := NextToken(rest);
    while next.Some?
      invariant next == NextToken(rest)
      invariant count + |Tokens(rest)| == |Tokens(cmdline)|
      decreases |rest|
    {
      NextTokenSplits(rest);
      count := count + 1;
      rest := next.value.1;
      next := NextToken(rest);
    }
    NextTokenSplits(rest);
  }

  /**
   * One more strtok_r call in the copy loop returns the next token toks[i],
   * whose copy starts StrBytes(toks[..i + 1]) bytes below the top of the page.
   */
  lemma NextTokenStep(toks: seq<seq<byte>>, i: nat, rest: seq<byte>)
    requires i <= |toks| && Tokens(rest) == toks[i..] && NextToken(rest).Some?
    ensures i < |toks| && toks[i] == NextToken(rest).value.0
    ensures Tokens(NextToken(rest).value.1) == toks[i + 1..]
    ensures |NextToken(rest).value.1| < |rest|
  {
    NextTokenSplits(rest);
    assert toks[i..] == [toks[i]] + toks[i + 1..];
  }

  /**
   * One iteration of the copy loop: byte_page_ptr -= token_len + 1, the
   * strlcpy of token toks[i], and arg_addrs[i] = byte_page_ptr.
   */
  method PushToken(page: array<byte>, argAddrs: array<u32>, ghost toks: seq<seq<byte>>, i: nat, ptr: nat, token: seq<byte>)
    returns (ptr': nat)
    requires page.Length == PGSIZE && StrBytes(toks) <= PGSIZE && argAddrs.Length == |toks|
    requires i < |toks| && token == toks[i] && ptr == PGSIZE - StrBytes(toks[..i])
    modifies page, argAddrs
    ensures ptr' == ArgOffset(toks, i) && ptr' == PGSIZE - StrBytes(toks[..i + 1])
    ensures page[..] == PutString(old(page[..]), ArgOffset(toks, i), toks[i])
    ensures argAddrs[..] == old(argAddrs[..])[i := STACK_PAGE + ArgOffset(toks, i)]
  {
    StrBytesSnoc(toks, i);
    StrBytesPrefix(toks, i + 1, |toks|);
    assert toks[..|toks|] == toks;
    ptr' := ptr - (|token| + 1);
    CopyString(page, ptr', token);
    argAddrs[i] := STACK_PAGE + ptr';
  }

  /**
   * The copy loop of setup_stack: each token strtok_r returns is pushed
   * below the previous one with its terminator, and its user address is
   * recorded in arg_addrs. ptr is byte_page_ptr as an offset into the
   * stack page.
   */
  method PushStrings(page: array<byte>, cmdline: seq<byte>, argAddrs: array<u32>) returns (ptr: nat)
    requires page.Length == PGSIZE && StrBytes(Tokens(cmdline)) <= PGSIZE
    requires argAddrs.Length == |Tokens(cmdline)|
    modifies page, argAddrs
    ensures ptr == PGSIZE - StrBytes(Tokens(cmdline))
    ensures argAddrs[..] == ArgAddrs(Tokens(cmdline))
    ensures page[..] == PushedStrings(old(page[..]), Tokens(cmdline), |Tokens(cmdline)|)
  {
    ghost var toks := Tokens(cmdline);
    ghost var addrs := ArgAddrs(toks);
    ghost var page0 := page[..];
    ptr := PGSIZE;
    var i := 0;
    var rest := cmdline;
    var next := NextToken(rest);
    while next.Some?
      invariant next == NextToken(rest)
      invariant i <= |toks| && Tokens(rest) == toks[i..]
      invariant ptr == PGSIZE - StrBytes(toks[..i])
      invariant forall j :: 0 <= j < i ==> argAddrs[j] == addrs[j]
      invariant page[..] == PushedStrings(page0, toks, i)
      decreases |rest|
    {
      NextTokenStep(toks, i, rest);
      ptr := PushToken(page, argAddrs, toks, i, ptr, next.value.0);
      i := i + 1;
      rest := next.value.1;
      next := NextToken(rest);
    }
    NextTokenSplits(rest);
    assert i == |toks|;
    assert toks[..i] == toks;
  }

  /** Offset of the byte below PHYS_BASE minus n after byte_page_ptr -= (int) byte_page_ptr & 3. */
  lemma AlignDown(n: nat)
    requires n <= PGSIZE
    ensures (PGSIZE - n) - (STACK_PAGE + (PGSIZE - n)) % 4 == PGSIZE - RoundUp4(n)
  {
    var q, r := n / 4, n % 4;
    assert n == 4 * q + r;
    assert STACK_PAGE + (PGSIZE - n) == 4 * (0x3000_0000 - q) - r;
  }

  /**
   * The argv loop of setup_stack, from the word-aligned offset top down:
   * argv[argc] = 0, then argv[argc-1] down to argv[0] from arg_addrs.
   */
  method PushArgv(page: array<byte>, top: nat, argAddrs: array<u32>)
    requires page.Length == PGSIZE && 4 * (argAddrs.Length + 1) <= top <= PGSIZE
    modifies page
    ensures page[..] == PushedArgv(old(page[..]), top - 4 * (argAddrs.Length + 1), argAddrs[..], argAddrs.Length)
  {
    var argc := argAddrs.Length;
    ghost var base := top - 4 * (argc + 1);
    var w := top - 4;
    WriteWord(page, w, 0);
    var i := 0;
    while i < argc
      invariant i <= argc && w == top - 4 - 4 * i
      invariant page[..] == PushedArgv(old(page[..]), base, argAddrs[..], i)
    {
      w := w - 4;
      assert w == base + 4 * (argc - (i + 1));
      WriteWord(page, w, argAddrs[argc - i - 1]);
      i := i + 1;
    }
  }

  /**
   * The word writes of setup_stack below the aligned strings: argv[] from
   * PushArgv, then argv, argc and the fake return address, the last at
   * offset e.
   */
  method WriteBlock(page: array<byte>, e: nat, argAddrs: array<u32>)
    requires page.Length == PGSIZE && e + 16 + 4 * argAddrs.Length <= PGSIZE && STACK_PAGE + e + 12 < U32_LIMIT
    modifies page
    ensures page[..] == Block(old(page[..]), e, argAddrs[..])
  {
    var argc := argAddrs.Length;
    PushArgv(page, e + 16 + 4 * argc, argAddrs);
    var argv := e + 12;
    WriteWord(page, argv - 4, STACK_PAGE + argv);
    WriteWord(page, argv - 8, argc);
    WriteWord(page, argv - 12, 0);
  }

  /**
   * Lays out the argument block for cmdline in the stack page, as the body
   * of setup_stack does once the page is mapped, and returns the new esp.
   * The command line is the copy process_execute made with
   * strlcpy (fn_copy, file_name, PGSIZE), so it is shorter than a page and
   * the counting pass sees all of it.
   */
  method BuildStack(page: array<byte>, cmdline: seq<byte>) returns (esp: nat)
    requires page.Length == PGSIZE && CString(cmdline) && |cmdline| < PGSIZE && StackFits(Tokens(cmdline))
    modifies page
    ensures esp == PHYS_BASE - StackSize(Tokens(cmdline))
    ensures page[..] == StackImage(old(page[..]), Tokens(cmdline))
  {
    ghost var toks := Tokens(cmdline);
    ghost var e := PGSIZE - StackSize(toks);
    var count := CountTokens(cmdline);
    var argAddrs := new u32[count];
    var ptr := PushStrings(page, cmdline, argAddrs);
    // byte_page_ptr -= ((int) byte_page_ptr) & 3: the low two bits of the address
    AlignDown(StrBytes(toks));
    ptr := ptr - (STACK_PAGE + ptr) % 4;
    var ret := ptr - 4 * (count + 1) - 12;
    assert ret == e;
    WriteBlock(page, ret, argAddrs);
    esp := STACK_PAGE + ret;
  }

  /**
   * The address space after setup_stack: on success the stack page is
   * mapped writable to the first free frame, which holds the argument
   * block over a zeroed page; the call fails, changing nothing, when the
   * user pool is empty or the stack page is already mapped.
   */
  ghost function SetupStackSpec(m: Mem, toks: seq<seq<byte>>): (Mem, bool)
    requires StackFits(toks)
  {
    if m.pool == [] || STACK_PAGE in m.pagedir then (m, false)
    else
      var kpage := m.pool[0];
      (Mem(m.pagedir[STACK_PAGE := Mapping(kpage, true)], m.frames[kpage := StackImage(Zeros(PGSIZE), toks)], m.pool[1..]), true)
  }

  /**
   * What setup_stack promises its caller: the address space stays valid
   * and keeps every earlier mapping; it succeeds exactly when a frame is
   * free and the stack page is unmapped; and then the stack page is
   * resident, writable, holds the argument block with esp at its fake
   * return address, and is zero everywhere else.
   */
  lemma SetupStackSpecFacts(m: Mem, toks: seq<seq<byte>>)
    requires MemValid(m) && StackFits(toks)
    ensures MemValid(SetupStackSpec(m, toks).0) && Extends(m, SetupStackSpec(m, toks).0)
    ensures SetupStackSpec(m, toks).1 <==> m.pool != [] && STACK_PAGE !in m.pagedir
    ensures !SetupStackSpec(m, toks).1 ==> SetupStackSpec(m, toks).0 == m
    ensures SetupStackSpec(m, toks).1 ==>
      var image := StackImage(Zeros(PGSIZE), toks);
      && PageResident(SetupStackSpec(m, toks).0, STACK_PAGE, true, image)
      && StackLayout(image, PHYS_BASE - StackSize(toks), toks)
      && (forall o :: 0 <= o < PGSIZE - StackSize(toks) ==> image[o] == 0)
  {
    if m.pool != [] && STACK_PAGE !in m.pagedir {
      StackImageLayout(Zeros(PGSIZE), toks);
      StackImageKeeps(Zeros(PGSIZE), toks);
      var r := SetupStackSpec(m, toks).0;
      assert forall i :: 0 <= i < |r.pool| ==> r.pool[i] == m.pool[i + 1];
    }
  }

  /**
   * setup_stack (esp, exec_cmd): allocates a zeroed user frame, installs it
   * at PHYS_BASE - PGSIZE and, on success, builds the argument block in it.
   */
  method SetupStack(space: AddressSpace, cmdline: seq<byte>) returns (ok: bool, esp: nat)
    requires space.Valid() && CString(cmdline) && |cmdline| < PGSIZE && StackFits(Tokens(cmdline))
    modifies space
    ensures space.Valid()
    ensures (space.State(), ok) == SetupStackSpec(old(space.State()), Tokens(cmdline))
    ensures ok ==> esp == PHYS_BASE - StackSize(Tokens(cmdline))
  {
    ghost var before := space.State();
    var kpage := space.AllocPage();
    if kpage.None? {
      return false, 0;
    }
    ok, esp := MapStack(space, kpage.value, cmdline);
    if ok {
      assert space.frames == before.frames[kpage.value := StackImage(Zeros(PGSIZE), Tokens(cmdline))];
    } else {
      assert space.frames == before.frames && space.pool == before.pool;
    }
  }

  /**
   * The rest of setup_stack once the frame kpage is allocated: install it
   * as the stack page, and free it again if that fails.
   */
  method MapStack(space: AddressSpace, kpage: nat, cmdline: seq<byte>) returns (ok: bool, esp: nat)
    requires space.Valid() && kpage in space.frames && CString(cmdline) && |cmdline| < PGSIZE && StackFits(Tokens(cmdline))
    requires forall u :: u in space.pagedir ==> space.pagedir[u].kpage != kpage
    modifies space
    ensures space.Valid()
    ensures ok <==> STACK_PAGE !in old(space.pagedir)
    ensures !ok ==> space.pagedir == old(space.pagedir) && space.frames == old(space.frames) - {kpage}
                    && space.pool == [kpage] + old(space.pool)
    ensures ok ==> space.pagedir == old(space.pagedir)[STACK_PAGE := Mapping(kpage, true)] && space.pool == old(space.pool)
                   && space.frames == old(space.frames)[kpage := StackImage(Zeros(PGSIZE), Tokens(cmdline))]
                   && esp == PHYS_BASE - StackSize(Tokens(cmdline))
  {
    ok := space.InstallOrFree(STACK_PAGE, kpage, true);
    if !ok {
      return false, 0;
    }
    esp := FillStack(space, kpage, cmdline);
  }

  /** The argument block is built in the zeroed frame kpage, which is then the frame's content. */
  method FillStack(space: AddressSpace, kpage: nat, cmdline: seq<byte>) returns (esp: nat)
    requires space.Valid() && kpage in space.frames && CString(cmdline) && |cmdline| < PGSIZE && StackFits(Tokens(cmdline))
    modifies space
    ensures space.Valid() && space.pagedir == old(space.pagedir) && space.pool == old(space.pool)
    ensures space.frames == old(space.frames)[kpage := StackImage(Zeros(PGSIZE), Tokens(cmdline))]
    ensures esp == PHYS_BASE - StackSize(Tokens(cmdline))
  {
    var page := new byte[PGSIZE](_ => 0);
    assert page[..] == Zeros(PGSIZE);
    esp := BuildStack(page, cmdline);
    space.FillPage(kpage, page[..]);
  }
}
