/** parse_cmdline of src/cr/rt/entry.c: the tokeniser that writes ASCII bytes over the UTF-16 buffer it
    is still reading, proved to give what the pure parser gives on a frozen copy. */
module Cmdline {
  import opened Bits
  import opened CmdlineSpec

  const ARGV_MAX: nat := 64

  /** Wide character `j` of the buffer. */
  function Wide(buf: seq<byte>, j: nat): (c: wchar)
    requires 2 * j + 1 < |buf|
  {
    buf[2 * j] as int + 256 * buf[2 * j + 1] as int
  }

  /** The first `n` wide characters of the buffer. */
  function WideChars(buf: seq<byte>, n: nat): (w: seq<wchar>)
    requires 2 * n <= |buf|
    ensures |w| == n && forall j | 0 <= j < n :: w[j] == Wide(buf, j)
  {
    seq(n, j requires 0 <= j < n => Wide(buf, j))
  }

  /** From index `i` on the buffer still reads as the frozen copy `w`. */
  ghost predicate Unread(buf: seq<byte>, w: seq<wchar>, i: nat) {
    i <= |w| && 2 * |w| <= |buf| && forall j {:trigger w[j]} | i <= j < |w| :: Wide(buf, j) == w[j]
  }

  /** Write `n` copies of `c` at `out`, behind the reading position `i`. */
  method Put(buf: array<byte>, out: nat, c: byte, n: nat, ghost w: seq<wchar>, ghost i: nat)
    requires Unread(buf[..], w, i) && out + n <= 2 * i
    modifies buf
    ensures Unread(buf[..], w, i)
    ensures buf[..out + n] == old(buf[..out]) + Repeat(c, n)
    ensures buf[2 * |w|..] == old(buf[2 * |w|..])
  {
    for k := 0 to n
      invariant forall j | 0 <= j < buf.Length :: buf[j] == if out <= j < out + k then c else old(buf[j])
    {
      buf[out + k] := c;
    }
  }

  lemma {:induction false} ScanStep(w: seq<wchar>, i: nat, quoted: bool)
    requires i < |w|
    ensures !quoted && IsBlank(w[i]) ==> Scan(w[i..], quoted) == Token([], w[i + 1..])
    ensures (quoted || !IsBlank(w[i])) && w[i] == QUOTE ==> Scan(w[i..], quoted) == Scan(w[i + 1..], !quoted)
    ensures (quoted || !IsBlank(w[i])) && w[i] != QUOTE && w[i] != BACKSLASH ==>
              var t := Scan(w[i + 1..], quoted);
              Scan(w[i..], quoted) == Token([Narrow(w[i])] + t.arg, t.rest)
  {
    assert w[i..][1..] == w[i + 1..];
  }

  /** The bytes a run of `n` backslashes produces. */
  function FromRun(n: nat, beforeQuote: bool): (r: seq<byte>)
    ensures |r| <= n + 1 && (n > 0 ==> |r| <= n)
  {
    if !beforeQuote then Repeat(BACKSLASH, n)
    else if n % 2 == 1 then Repeat(BACKSLASH, n / 2) + [QUOTE]
    else Repeat(BACKSLASH, n / 2)
  }

  lemma {:induction false} ScanStepRun(w: seq<wchar>, i: nat, n: nat, quoted: bool)
    requires i + n <= |w| && n > 0 && (forall j | i <= j < i + n :: w[j] == BACKSLASH)
    requires i + n < |w| ==> w[i + n] != BACKSLASH
    ensures var beforeQuote := i + n < |w| && w[i + n] == QUOTE;
            var i' := if beforeQuote then i + n + 1 else i + n;
            var t := Scan(w[i'..], if beforeQuote && n % 2 == 0 then !quoted else quoted);
            Scan(w[i..], quoted) == Token(FromRun(n, beforeQuote) + t.arg, t.rest)
  {
    var v := w[i..];
    RunIs(v, n);
    assert v[n..] == w[i + n..];
    if n < |v| && v[n] == QUOTE {
      assert v[n + 1..] == w[i + n + 1..];
      ScanBeforeQuote(v, n, quoted);
    } else {
      ScanNotBeforeQuote(v, n, quoted);
    }
  }

  lemma {:induction false} ScanBeforeQuote(v: seq<wchar>, n: nat, quoted: bool)
    requires 0 < n == Run(v) < |v| && v[n] == QUOTE
    ensures var t := Scan(v[n + 1..], if n % 2 == 0 then !quoted else quoted);
            Scan(v, quoted) == Token(FromRun(n, true) + t.arg, t.rest)
  {
    assert Repeat(BACKSLASH, n / 2) + [] == Repeat(BACKSLASH, n / 2);
  }

  lemma {:induction false} ScanNotBeforeQuote(v: seq<wchar>, n: nat, quoted: bool)
    requires 0 < n == Run(v) && (n < |v| ==> v[n] != QUOTE)
    ensures Scan(v, quoted) == Token(FromRun(n, false) + Scan(v[n..], quoted).arg, Scan(v[n..], quoted).rest)
  {
  }

  /** What is still to come of an argument after `acc`. */
  ghost predicate Heading(goal: Token, acc: seq<byte>, w: seq<wchar>, i: nat, quoted: bool) {
    i <= |w| && goal == Token(acc + Scan(w[i..], quoted).arg, Scan(w[i..], quoted).rest)
  }

  /** In the middle of an argument that started at character `i0` and byte `|pre|`: every character read
      has produced at most one byte, so the writer stays behind the reader. */
  ghost predicate Scanning(buf: seq<byte>, w: seq<wchar>, i0: nat, pre: seq<byte>, goal: Token,
                           i: nat, out: nat, acc: seq<byte>, quoted: bool)
  {
    && Unread(buf, w, i) && i0 <= i && |pre| <= 2 * i0
    && out == |pre| + |acc| && |acc| <= i - i0
    && buf[..out] == pre + acc
    && Heading(goal, acc, w, i, quoted)
  }

  lemma {:induction false} HeadingMore(goal: Token, acc: seq<byte>, w: seq<wchar>, i: nat, quoted: bool,
                                       more: seq<byte>, i': nat, quoted': bool)
    requires Heading(goal, acc, w, i, quoted) && i' <= |w|
    requires Scan(w[i..], quoted) == Token(more + Scan(w[i'..], quoted').arg, Scan(w[i'..], quoted').rest)
    ensures Heading(goal, acc + more, w, i', quoted')
  {
    hide Scan;
    var a := Scan(w[i'..], quoted').arg;
    assert acc + (more + a) == (acc + more) + a;
  }

  lemma {:induction false} Append(buf: seq<byte>, out: nat, pre: seq<byte>, acc: seq<byte>, more: seq<byte>,
                                  was: seq<byte>)
    requires was == pre + acc && out + |more| <= |buf| && buf[..out + |more|] == was + more
    ensures buf[..out + |more|] == pre + (acc + more)
  {
  }

  /** How many backslashes stand at `i` in a row. */
  method CountRun(buf: array<byte>, i: nat, nwc: nat, ghost w: seq<wchar>) returns (n: nat)
    requires Unread(buf[..], w, i) && nwc == |w|
    ensures i + n <= |w| && forall j | i <= j < i + n :: w[j] == BACKSLASH
    ensures i + n < |w| ==> w[i + n] != BACKSLASH
  {
    n := 0;
    while i + n < nwc && Wide(buf[..], i + n) == BACKSLASH
      invariant i + n <= nwc && forall j | i <= j < i + n :: w[j] == BACKSLASH
    {
      assert Wide(buf[..], i + n) == w[i + n];
      n := n + 1;
    }
    assert i + n < |w| ==> Wide(buf[..], i + n) == w[i + n];
  }

  lemma {:induction false} Facts(buf: seq<byte>, w: seq<wchar>, i0: nat, pre: seq<byte>, goal: Token,
                                 i: nat, out: nat, acc: seq<byte>, quoted: bool)
    requires Scanning(buf, w, i0, pre, goal, i, out, acc, quoted)
    ensures Unread(buf, w, i) && i <= |w| && 2 * |w| <= |buf| && out <= 2 * i
    ensures i < |w| ==> Wide(buf, i) == w[i]
    ensures buf[..out] == pre + acc && Heading(goal, acc, w, i, quoted)
  {
    hide Scan;
  }

  lemma {:induction false} Wrote(buf: seq<byte>, was: seq<byte>, w: seq<wchar>, i0: nat, pre: seq<byte>, goal: Token,
    i: nat, out: nat, acc: seq<byte>, quoted: bool, more: seq<byte>, i': nat, quoted': bool)
    requires Scanning(was, w, i0, pre, goal, i, out, acc, quoted) && i + |more| <= i' <= |w|
    requires Unread(buf, w, i') && buf[..out + |more|] == was[..out] + more
    requires Scan(w[i..], quoted) == Token(more + Scan(w[i'..], quoted').arg, Scan(w[i'..], quoted').rest)
    ensures Scanning(buf, w, i0, pre, goal, i', out + |more|, acc + more, quoted')
  {
    hide Scan, Heading;
    HeadingMore(goal, acc, w, i, quoted, more, i', quoted');
    Append(buf, out, pre, acc, more, was[..out]);
  }

  lemma {:induction false} UnreadLater(buf: seq<byte>, w: seq<wchar>, i: nat, i': nat)
    requires Unread(buf, w, i) && i <= i' <= |w|
    ensures Unread(buf, w, i') && 2 * |w| <= |buf|
    ensures i' < |w| ==> Wide(buf, i') == w[i']
  {
  }

  /** Write what a run of backslashes stands for. */
  method PutRun(buf: array<byte>, out: nat, slashes: nat, beforeQuote: bool, ghost w: seq<wchar>, ghost i: nat)
    returns (out': nat)
    requires Unread(buf[..], w, i) && out + |FromRun(slashes, beforeQuote)| <= 2 * i
    modifies buf
    ensures Unread(buf[..], w, i) && out' == out + |FromRun(slashes, beforeQuote)|
    ensures buf[..out'] == old(buf[..out]) + FromRun(slashes, beforeQuote)
    ensures buf[2 * |w|..] == old(buf[2 * |w|..])
  {
    if beforeQuote {
      Put(buf, out, BACKSLASH, slashes / 2, w, i);
      out' := out + slashes / 2;
      if slashes % 2 == 1 {
        Put(buf, out', QUOTE, 1, w, i);
        out' := out' + 1;
      }
    } else {
      Put(buf, out, BACKSLASH, slashes, w, i);
      out' := out + slashes;
    }
  }

  /** A run of backslashes and the quote that may follow it. */
  method Slashes(buf: array<byte>, i: nat, nwc: nat, out: nat, quoted: bool,
                 ghost w: seq<wchar>, ghost i0: nat, ghost pre: seq<byte>, ghost goal: Token, ghost acc: seq<byte>)
    returns (i': nat, out': nat, quoted': bool, ghost acc': seq<byte>)
    requires Scanning(buf[..], w, i0, pre, goal, i, out, acc, quoted) && i < nwc == |w| && w[i] == BACKSLASH
    modifies buf
    ensures Scanning(buf[..], w, i0, pre, goal, i', out', acc', quoted') && i < i' <= nwc
    ensures buf[2 * nwc..] == old(buf[2 * nwc..])
  {
    hide Scan, Unread, Heading, Scanning, FromRun;
    Facts(buf[..], w, i0, pre, goal, i, out, acc, quoted);
    var slashes := CountRun(buf, i, nwc, w);
    i' := i + slashes;
    UnreadLater(buf[..], w, i, i');
    var beforeQuote := i' < nwc && Wide(buf[..], i') == QUOTE;
    ghost var was, more := buf[..], FromRun(slashes, beforeQuote);
    ScanStepRun(w, i, slashes, quoted);
    out' := PutRun(buf, out, slashes, beforeQuote, w, i');
    quoted' := quoted;
    if beforeQuote {
      UnreadLater(buf[..], w, i', i' + 1);
      quoted' := if slashes % 2 == 0 then !quoted else quoted;
      i' := i' + 1;
    }
    acc' := acc + more;
    Wrote(buf[..], was, w, i0, pre, goal, i, out, acc, quoted, more, i', quoted');
  }

  /** One argument: decode it over the buffer from `out` on; returns where reading and writing stand. */
  method Argument(buf: array<byte>, i: nat, nwc: nat, out: nat, ghost w: seq<wchar>) returns (i': nat, out': nat)
    requires Unread(buf[..], w, i) && i < nwc == |w| && out <= 2 * i
    modifies buf
    ensures var t := Scan(w[i..], false);
      && i < i' <= nwc && w[i'..] == t.rest && Unread(buf[..], w, i')
      && out' == out + |t.arg| && |t.arg| <= i' - i && buf[..out'] == old(buf[..out]) + t.arg
    ensures buf[2 * nwc..] == old(buf[2 * nwc..])
  {
    ghost var pre, acc: seq<byte> := buf[..out], [];
    ghost var goal := Scan(w[i..], false);
    var quoted := false;
    i', out' := i, out;
    assert [] + goal.arg == goal.arg;
    hide Scan, Unread;
    while i' < nwc
      invariant i' <= nwc && Scanning(buf[..], w, i, pre, goal, i', out', acc, quoted)
      invariant buf[2 * nwc..] == old(buf[2 * nwc..])
      decreases nwc - i'
    {
      var stop;
      stop, i', out', quoted, acc := Character(buf, i', nwc, out', quoted, w, i, pre, goal, acc);
      if stop {
        return;
      }
    }
    ScanNothing(w, quoted);
  }

  lemma {:induction false} ScanNothing(w: seq<wchar>, quoted: bool)
    ensures Scan(w[|w|..], quoted) == Token([], w[|w|..])
  {
  }

  /** One pass of the inner loop; `stop` at the blank that ends the argument. */
  method Character(buf: array<byte>, i: nat, nwc: nat, out: nat, quoted: bool,
                   ghost w: seq<wchar>, ghost i0: nat, ghost pre: seq<byte>, ghost goal: Token, ghost acc: seq<byte>)
    returns (stop: bool, i': nat, out': nat, quoted': bool, ghost acc': seq<byte>)
    requires Scanning(buf[..], w, i0, pre, goal, i, out, acc, quoted) && i < nwc == |w|
    modifies buf
    ensures i < i' <= nwc
    ensures !stop ==> Scanning(buf[..], w, i0, pre, goal, i', out', acc', quoted')
    ensures stop ==> out' == out && acc' == acc && buf[..out] == pre + acc
    ensures stop ==> Unread(buf[..], w, i') && goal == Token(acc, w[i'..])
    ensures buf[2 * nwc..] == old(buf[2 * nwc..])
  {
    hide Scan, Unread, Heading, Scanning;
    Facts(buf[..], w, i0, pre, goal, i, out, acc, quoted);
    var wc := Wide(buf[..], i);
    ScanStep(w, i, quoted);
    UnreadLater(buf[..], w, i, i + 1);
    ghost var was := buf[..];
    if !quoted && (wc == 32 || wc == 9) {
      HeadingEnd(goal, acc, w, i, quoted);
      return true, i + 1, out, quoted, acc;
    }
    stop := false;
    if wc == BACKSLASH {
      i', out', quoted', acc' := Slashes(buf, i, nwc, out, quoted, w, i0, pre, goal, acc);
    } else if wc == QUOTE {
      i', out', quoted', acc' := i + 1, out, !quoted, acc + [];
      Wrote(buf[..], was, w, i0, pre, goal, i, out, acc, quoted, [], i', quoted');
    } else {
      var c := if wc < 128 then wc else 63;
      Put(buf, out, c, 1, w, i + 1);
      i', out', quoted', acc' := i + 1, out + 1, quoted, acc + [c];
      Wrote(buf[..], was, w, i0, pre, goal, i, out, acc, quoted, [c], i', quoted');
    }
  }

  lemma {:induction false} HeadingEnd(goal: Token, acc: seq<byte>, w: seq<wchar>, i: nat, quoted: bool)
    requires Heading(goal, acc, w, i, quoted) && i < |w| && Scan(w[i..], quoted) == Token([], w[i + 1..])
    ensures goal == Token(acc, w[i + 1..])
  {
  }

  /** Move past the blanks before an argument. */
  method Skip(buf: array<byte>, i: nat, nwc: nat, ghost w: seq<wchar>) returns (i': nat)
    requires Unread(buf[..], w, i) && i <= nwc == |w|
    ensures i <= i' <= nwc && w[i'..] == SkipBlanks(w[i..]) && Unread(buf[..], w, i')
  {
    hide Unread, SkipBlanks;
    i' := i;
    UnreadLater(buf[..], w, i, i');
    while i' < nwc && (Wide(buf[..], i') == 32 || Wide(buf[..], i') == 9)
      invariant i <= i' <= nwc && SkipBlanks(w[i'..]) == SkipBlanks(w[i..]) && Unread(buf[..], w, i')
      invariant 2 * |w| <= buf.Length && (i' < |w| ==> Wide(buf[..], i') == w[i'])
    {
      SkipStep(w, i');
      UnreadLater(buf[..], w, i', i' + 1);
      i' := i' + 1;
    }
    SkipStep(w, i');
  }

  lemma {:induction false} SkipStep(w: seq<wchar>, i: nat)
    requires i <= |w|
    ensures i < |w| && IsBlank(w[i]) ==> SkipBlanks(w[i..]) == SkipBlanks(w[i + 1..])
    ensures !(i < |w| && IsBlank(w[i])) ==> SkipBlanks(w[i..]) == w[i..]
  {
    if i < |w| {
      assert w[i..][1..] == w[i + 1..];
    }
  }

  /** The offsets at which the arguments start, in the buffer that holds them flat. */
  ghost predicate Offsets(argv: seq<Option<nat>>, args: seq<seq<byte>>) {
    |args| <= |argv| && forall k {:trigger argv[k]} | 0 <= k < |args| :: argv[k] == Some(|Flat(args[..k])|)
  }

  /** Between arguments: `args` are done, the rest of the command line gives the rest of the result. */
  ghost predicate Between(buf: seq<byte>, argv: seq<Option<nat>>, w: seq<wchar>, args: seq<seq<byte>>,
                          i: nat, out: nat)
  {
    && Unread(buf, w, i) && out <= 2 * i && |args| <= ARGV_MAX - 1
    && out == |Flat(args)| && buf[..out] == Flat(args) && Offsets(argv, args)
    && Parse(w, ARGV_MAX - 1) == args + Parse(w[i..], ARGV_MAX - 1 - |args|)
  }

  lemma {:induction false} FlatMore(args: seq<seq<byte>>, a: seq<byte>)
    ensures Flat(args + [a]) == Flat(args) + a + [0]
  {
    FlatSplit(args, [a]);
    assert Flat([a]) == a + [0];
  }

  lemma {:induction false} OffsetsMore(argv: seq<Option<nat>>, argv': seq<Option<nat>>, args: seq<seq<byte>>,
                                       a: seq<byte>)
    requires Offsets(argv, args) && |args| < |argv| && argv' == argv[|args| := Some(|Flat(args)|)]
    ensures Offsets(argv', args + [a])
  {
    forall k | 0 <= k < |args| + 1
      ensures argv'[k] == Some(|Flat((args + [a])[..k])|)
    {
      if k < |args| {
        assert (args + [a])[..k] == args[..k];
      } else {
        assert (args + [a])[..k] == args;
      }
    }
  }

  lemma {:induction false} OffsetsKept(argv: seq<Option<nat>>, argv': seq<Option<nat>>, args: seq<seq<byte>>)
    requires Offsets(argv, args) && |args| <= |argv'| && argv'[..|args|] == argv[..|args|]
    ensures Offsets(argv', args)
  {
    assert forall k | 0 <= k < |args| :: argv'[k] == argv'[..|args|][k] == argv[k];
  }

  /** The next argument moves the parse on by one. */
  lemma {:induction false} ParseMore(w: seq<wchar>, args: seq<seq<byte>>, i: nat, j: nat, i': nat)
    requires i <= |w| && j < |w| && i' <= |w| && |args| < ARGV_MAX - 1
    requires Parse(w, ARGV_MAX - 1) == args + Parse(w[i..], ARGV_MAX - 1 - |args|)
    requires w[j..] == SkipBlanks(w[i..]) && Scan(w[j..], false).rest == w[i'..]
    ensures Parse(w, ARGV_MAX - 1) == (args + [Scan(w[j..], false).arg]) + Parse(w[i'..], ARGV_MAX - 1 - (|args| + 1))
  {
    hide Scan, Parse, SkipBlanks;
    ParseStep(w[i..], ARGV_MAX - 1 - |args|);
    var a, rest := Scan(w[j..], false).arg, Parse(w[i'..], ARGV_MAX - 2 - |args|);
    assert args + ([a] + rest) == (args + [a]) + rest;
  }

  /** One pass of the outer loop; `last` when only blanks were left. */
  method NextArgument(buf: array<byte>, argv: array<Option<nat>>, i: nat, nwc: nat, out: nat, argc: nat,
                      ghost w: seq<wchar>, ghost args: seq<seq<byte>>)
    returns (last: bool, i': nat, out': nat, ghost args': seq<seq<byte>>)
    requires Between(buf[..], argv[..], w, args, i, out) && i < nwc == |w|
    requires argc == |args| < ARGV_MAX - 1 && argv.Length == ARGV_MAX
    modifies buf, argv
    ensures Between(buf[..], argv[..], w, args', i', out') && i' <= nwc
    ensures last ==> i' == nwc && args' == args
    ensures !last ==> i < i' && |args'| == argc + 1
    ensures buf[2 * nwc..] == old(buf[2 * nwc..])
  {
    hide Scan, Parse, Between, Unread, Flat, Offsets, SkipBlanks;
    BetweenFacts(buf[..], argv[..], w, args, i, out);
    var j := Skip(buf, i, nwc, w);
    if j == nwc {
      BetweenBlanks(buf[..], argv[..], w, args, i, out);
      return true, j, out, args;
    }
    ghost var was, wasArgv := buf[..], argv[..];
    argv[argc] := Some(out);
    i', out' := Argument(buf, j, nwc, out, w);
    ghost var a := Scan(w[j..], false).arg;
    Put(buf, out', 0, 1, w, i');
    out' := out' + 1;
    args' := args + [a];
    last := false;
    BetweenMore(was, wasArgv, w, args, i, out, buf[..], argv[..], j, i', out');
  }

  lemma {:induction false} BetweenFacts(buf: seq<byte>, argv: seq<Option<nat>>, w: seq<wchar>, args: seq<seq<byte>>,
                                        i: nat, out: nat)
    requires Between(buf, argv, w, args, i, out)
    ensures Unread(buf, w, i) && i <= |w| && 2 * |w| <= |buf| && out <= 2 * i
  {
    hide Parse, Flat;
  }

  lemma {:induction false} BetweenBlanks(buf: seq<byte>, argv: seq<Option<nat>>, w: seq<wchar>, args: seq<seq<byte>>,
                                         i: nat, out: nat)
    requires Between(buf, argv, w, args, i, out) && i <= |w| && SkipBlanks(w[i..]) == w[|w|..]
    ensures Between(buf, argv, w, args, |w|, out)
  {
    hide Parse, Flat, SkipBlanks, Offsets;
    SkipEmpty();
    ParseEnd(w, i, ARGV_MAX - 1 - |args|);
    ParseEnd(w, |w|, ARGV_MAX - 1 - |args|);
  }

  lemma {:induction false} BetweenMore(buf: seq<byte>, argv: seq<Option<nat>>, w: seq<wchar>, args: seq<seq<byte>>,
                                       i: nat, out: nat,
                                       buf': seq<byte>, argv': seq<Option<nat>>, j: nat, i': nat, out': nat)
    requires Between(buf, argv, w, args, i, out) && |args| < ARGV_MAX - 1 && |args| < |argv|
    requires argv' == argv[|args| := Some(out)]
    requires i <= j < i' <= |w| && w[j..] == SkipBlanks(w[i..]) && Scan(w[j..], false).rest == w[i'..]
    requires Unread(buf', w, i') && out' <= 2 * i' && out' <= |buf'|
    requires out' == out + |Scan(w[j..], false).arg| + 1
    requires buf'[..out'] == (buf[..out] + Scan(w[j..], false).arg) + Repeat(0, 1)
    ensures Between(buf', argv', w, args + [Scan(w[j..], false).arg], i', out')
  {
    hide Scan, Parse, Unread, Flat, Offsets, SkipBlanks;
    var a := Scan(w[j..], false).arg;
    assert Repeat(0, 1) == [0];
    FlatMore(args, a);
    OffsetsMore(argv, argv', args, a);
    ParseMore(w, args, i, j, i');
  }

  lemma {:induction false} SkipEmpty()
    ensures SkipBlanks([]) == []
  {
  }

  /** Tokenise the command line in place. The arguments are those of the pure parser on the characters
      the buffer held at the start; they stand in the buffer as NUL-terminated strings at the offsets in
      `argv`, which ends with a null; nothing past the wide characters is touched. */
  method ParseCmdline(buf: array<byte>, wideBytes: nat, argv: array<Option<nat>>) returns (argc: nat)
    requires wideBytes <= buf.Length && argv.Length == ARGV_MAX
    modifies buf, argv
    ensures var args := Parse(old(WideChars(buf[..], wideBytes / 2)), ARGV_MAX - 1);
      && argc == |args| < ARGV_MAX && argv[argc] == None && Offsets(argv[..], args)
      && |Flat(args)| <= wideBytes && buf[..|Flat(args)|] == Flat(args)
    ensures buf[wideBytes / 2 * 2..] == old(buf[wideBytes / 2 * 2..])
  {
    var nwc := wideBytes / 2;
    ghost var w := WideChars(buf[..], nwc);
    ghost var args: seq<seq<byte>> := [];
    var i, out := 0, 0;
    argc := 0;
    BetweenStart(buf[..], argv[..], w);
    hide Parse, Between, Flat, Offsets, WideChars;
    while i < nwc && argc < ARGV_MAX - 1
      invariant i <= nwc && argc == |args| <= ARGV_MAX - 1
      invariant Between(buf[..], argv[..], w, args, i, out)
      invariant buf[2 * nwc..] == old(buf[2 * nwc..])
      decreases nwc - i
    {
      var last;
      last, i, out, args := NextArgument(buf, argv, i, nwc, out, argc, w, args);
      if last {
        break;
      }
      argc := argc + 1;
    }
    BetweenEnd(buf[..], argv[..], w, args, i, out);
    ghost var was := argv[..];
    argv[argc] := None;
    OffsetsKept(was, argv[..], args);
  }

  lemma {:induction false} BetweenStart(buf: seq<byte>, argv: seq<Option<nat>>, w: seq<wchar>)
    requires 2 * |w| <= |buf| && w == WideChars(buf, |w|) && |argv| == ARGV_MAX
    ensures Between(buf, argv, w, [], 0, 0)
  {
    hide Parse;
    assert w[0..] == w && [] + Parse(w, ARGV_MAX - 1) == Parse(w, ARGV_MAX - 1);
  }

  lemma {:induction false} BetweenEnd(buf: seq<byte>, argv: seq<Option<nat>>, w: seq<wchar>, args: seq<seq<byte>>,
                                      i: nat, out: nat)
    requires Between(buf, argv, w, args, i, out) && (i == |w| || |args| == ARGV_MAX - 1)
    ensures args == Parse(w, ARGV_MAX - 1) && Offsets(argv, args)
    ensures out == |Flat(args)| <= 2 * |w| <= |buf| && buf[..out] == Flat(args)
  {
    hide Parse, Flat, Offsets, SkipBlanks;
    SkipEmpty();
    if i == |w| {
      assert w[i..] == [];
    }
    ParseEnd(w, i, ARGV_MAX - 1 - |args|);
    assert args + [] == args;
  }

  /** Nothing but blanks left, or no more arguments wanted. */
  lemma {:induction false} ParseEnd(w: seq<wchar>, i: nat, n: nat)
    requires i <= |w| && (n == 0 || SkipBlanks(w[i..]) == [])
    ensures Parse(w[i..], n) == []
  {
  }

  /** Of any number of words the first 63 become arguments. */
  lemma {:induction false} FirstWords(gaps: seq<seq<wchar>>, words: seq<seq<wchar>>, last: seq<wchar>)
    requires Lined(gaps, words, last)
    ensures Parse(Line(gaps, words, last), ARGV_MAX - 1) == AllNarrowed(if |words| <= 63 then words else words[..63])
  {
    hide Parse, Line, Lined, AllNarrowed;
    ParseWords(gaps, words, last, ARGV_MAX - 1);
    assert words[..|words|] == words;
  }
}
