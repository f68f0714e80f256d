/** The command line rules of src/cr/rt/entry.c as a pure parser over a frozen copy of the wide
    characters, and a quoting function that it undoes. */
module CmdlineSpec {
  import opened Bits

  type wchar = x: int | 0 <= x < 65536

  const BACKSLASH: byte := 92
  const QUOTE: byte := 34

  predicate IsBlank(c: wchar) { c == 32 || c == 9 }

  /** Non-ASCII characters become '?'. */
  function Narrow(c: wchar): byte { if c < 128 then c else 63 }

  function Repeat(c: byte, n: nat): (r: seq<byte>)
    ensures |r| == n && forall i | 0 <= i < n :: r[i] == c
  {
    seq(n, _ => c)
  }

  /** Length of the run of backslashes at the start of `w`. */
  function Run(w: seq<wchar>): (n: nat)
    ensures n <= |w|
    ensures forall i | 0 <= i < n :: w[i] == BACKSLASH
    ensures n < |w| ==> w[n] != BACKSLASH
  {
    if w == [] || w[0] != BACKSLASH then 0 else 1 + Run(w[1..])
  }

  datatype Token = Token(arg: seq<byte>, rest: seq<wchar>)

  /** The rest of one argument, inside or outside quotes, and what follows it. */
  function Scan(w: seq<wchar>, quoted: bool): (t: Token)
    ensures |t.arg| + |t.rest| <= |w|
    ensures w != [] ==> |t.rest| < |w|
    decreases |w|
  {
    if w == [] then Token([], [])
    else if !quoted && IsBlank(w[0]) then Token([], w[1..])
    else if w[0] == BACKSLASH then
      var n := Run(w);
      if n < |w| && w[n] == QUOTE then
        var t := Scan(w[n + 1..], if n % 2 == 1 then quoted else !quoted);
        Token(Repeat(BACKSLASH, n / 2) + (if n % 2 == 1 then [QUOTE] else []) + t.arg, t.rest)
      else
        var t := Scan(w[n..], quoted);
        Token(Repeat(BACKSLASH, n) + t.arg, t.rest)
    else if w[0] == QUOTE then Scan(w[1..], !quoted)
    else
      var t := Scan(w[1..], quoted);
      Token([Narrow(w[0])] + t.arg, t.rest)
  }

  function SkipBlanks(w: seq<wchar>): (r: seq<wchar>)
    ensures |r| <= |w|
  {
    if w != [] && IsBlank(w[0]) then SkipBlanks(w[1..]) else w
  }

  /** At most `n` arguments of the command line `w`. */
  function Parse(w: seq<wchar>, n: nat): (args: seq<seq<byte>>)
    ensures |args| <= n
    decreases n
  {
    var v := SkipBlanks(w);
    if n == 0 || v == [] then [] else
    var t := Scan(v, false);
    [t.arg] + Parse(t.rest, n - 1)
  }

  /** Arguments as NUL-terminated strings one after the other. */
  function Flat(args: seq<seq<byte>>): seq<byte> {
    if args == [] then [] else args[0] + [0] + Flat(args[1..])
  }

  lemma {:induction false} FlatSplit(a: seq<seq<byte>>, b: seq<seq<byte>>)
    ensures Flat(a + b) == Flat(a) + Flat(b)
  {
    if a == [] {
      assert a + b == b;
    } else {
      FlatSplit(a[1..], b);
      assert (a + b)[1..] == a[1..] + b;
    }
  }

  /** Argument `k` stands at the offset of what comes before it, and ends with a NUL there. */
  lemma {:induction false} FlatAt(args: seq<seq<byte>>, k: nat)
    requires k < |args|
    ensures var o := |Flat(args[..k])|;
      && o + |args[k]| < |Flat(args)|
      && Flat(args)[o..o + |args[k]|] == args[k]
      && Flat(args)[o + |args[k]|] == 0
  {
    assert args == args[..k] + args[k..];
    FlatSplit(args[..k], args[k..]);
    assert Flat(args[k..]) == args[k] + [0] + Flat(args[k + 1..]);
  }

  // ---------------------------------------------------------------- quoting

  /** An argument with the escapes it needs between quotes. */
  function Escape(a: seq<byte>): seq<byte>
    decreases |a|
  {
    var n := Run(a);
    if n == |a| then Repeat(BACKSLASH, 2 * n)
    else if a[n] == QUOTE then Repeat(BACKSLASH, 2 * n + 1) + [QUOTE] + Escape(a[n + 1..])
    else Repeat(BACKSLASH, n) + [a[n]] + Escape(a[n + 1..])
  }

  /** A command line that spells the given arguments. */
  function Spell(args: seq<seq<byte>>): seq<byte> {
    if args == [] then [] else [32, QUOTE] + Escape(args[0]) + [QUOTE] + Spell(args[1..])
  }

  predicate Ascii(a: seq<byte>) {
    forall i | 0 <= i < |a| :: a[i] < 128
  }

  lemma {:induction false} RunIs(w: seq<wchar>, n: nat)
    requires n <= |w| && (forall i | 0 <= i < n :: w[i] == BACKSLASH) && (n < |w| ==> w[n] != BACKSLASH)
    ensures Run(w) == n
  {
  }

  /** Scanning `n` backslashes and a quote. */
  lemma {:induction false} ScanRunQuote(n: nat, rest: seq<wchar>, quoted: bool)
    requires n > 0
    ensures var t := Scan(rest, if n % 2 == 1 then quoted else !quoted);
            Scan(Repeat(BACKSLASH, n) + [QUOTE] + rest, quoted) ==
            Token(Repeat(BACKSLASH, n / 2) + (if n % 2 == 1 then [QUOTE] else []) + t.arg, t.rest)
  {
    var w := Repeat(BACKSLASH, n) + [QUOTE] + rest;
    RunIs(w, n);
    assert w[n + 1..] == rest;
  }

  /** Twice `n` backslashes and a quote: `n` backslashes, and the quote toggles. */
  lemma {:induction false} ScanEvenQuote(n: nat, rest: seq<wchar>, quoted: bool)
    ensures Scan(Repeat(92, 2 * n) + [34] + rest, quoted)
         == Token(Repeat(92, n) + Scan(rest, !quoted).arg, Scan(rest, !quoted).rest)
  {
    hide Scan;
    if n == 0 {
      assert Repeat(BACKSLASH, 2 * n) + [QUOTE] + rest == [QUOTE] + rest;
      assert Repeat(BACKSLASH, n) + Scan(rest, !quoted).arg == Scan(rest, !quoted).arg;
      ScanQuote(rest, quoted);
    } else {
      ScanRunQuote(2 * n, rest, quoted);
      assert Repeat(BACKSLASH, n) + [] == Repeat(BACKSLASH, n);
    }
  }

  /** One backslash more: `n` backslashes and a literal quote. */
  lemma {:induction false} ScanOddQuote(n: nat, rest: seq<wchar>, quoted: bool)
    ensures Scan(Repeat(92, 2 * n + 1) + [34] + rest, quoted)
         == Token(Repeat(92, n) + [34] + Scan(rest, quoted).arg, Scan(rest, quoted).rest)
  {
    hide Scan;
    ScanRunQuote(2 * n + 1, rest, quoted);
  }

  /** Scanning a quote. */
  lemma {:induction false} ScanQuote(rest: seq<wchar>, quoted: bool)
    ensures Scan([QUOTE] + rest, quoted) == Scan(rest, !quoted)
  {
    assert ([QUOTE] + rest)[1..] == rest;
  }

  /** Backslashes before an ordinary character between quotes. */
  lemma {:induction false} ScanChar(n: nat, c: byte, rest: seq<wchar>)
    requires c != QUOTE && c != BACKSLASH && c < 128
    ensures Scan(Repeat(BACKSLASH, n) + [c] + rest, true)
         == Token(Repeat(BACKSLASH, n) + [c] + Scan(rest, true).arg, Scan(rest, true).rest)
  {
    hide Scan, Repeat;
    ScanPlain(c, rest);
    var s, v := Repeat(BACKSLASH, n), [c] + rest;
    assert s + [c] + rest == s + v;
    assert s + ([c] + Scan(rest, true).arg) == s + [c] + Scan(rest, true).arg;
    if n == 0 {
      assert s == [];
      assert s + v == v && s + Scan(v, true).arg == Scan(v, true).arg;
    } else {
      ScanRunPlain(n, v);
    }
  }

  lemma {:induction false} ScanPlain(c: byte, rest: seq<wchar>)
    requires c != QUOTE && c != BACKSLASH && c < 128
    ensures Scan([c] + rest, true) == Token([c] + Scan(rest, true).arg, Scan(rest, true).rest)
  {
    assert ([c] + rest)[1..] == rest;
  }

  lemma {:induction false} ScanRunPlain(n: nat, v: seq<wchar>)
    requires n > 0 && v != [] && v[0] != QUOTE && v[0] != BACKSLASH
    ensures Scan(Repeat(BACKSLASH, n) + v, true)
         == Token(Repeat(BACKSLASH, n) + Scan(v, true).arg, Scan(v, true).rest)
  {
    var w := Repeat(BACKSLASH, n) + v;
    RunIs(w, n);
    assert w[n..] == v;
  }

  ghost predicate ReadsBack(a: seq<byte>, rest: seq<wchar>) {
    var t := Scan(rest, false);
    Scan(Escape(a) + [QUOTE] + rest, true) == Token(a + t.arg, t.rest)
  }

  /** What quoting an argument spells reads back as the argument, up to the closing quote. */
  lemma {:induction false} ScanEscape(a: seq<byte>, rest: seq<wchar>)
    requires Ascii(a)
    ensures ReadsBack(a, rest)
    decreases |a|, 1
  {
    hide Scan, Escape, ReadsBack;
    var n := Run(a);
    if n == |a| {
      ScanAllSlashes(a, rest);
    } else if a[n] == QUOTE {
      ScanSlashesQuote(a, n, rest);
    } else {
      ScanSlashesChar(a, n, rest);
    }
  }

  lemma {:induction false} ScanAllSlashes(a: seq<byte>, rest: seq<wchar>)
    requires Run(a) == |a|
    ensures ReadsBack(a, rest)
  {
    hide Scan;
    ScanEvenQuote(|a|, rest, true);
    assert a == Repeat(BACKSLASH, |a|);
  }

  lemma {:induction false} ScanSlashesQuote(a: seq<byte>, n: nat, rest: seq<wchar>)
    requires Ascii(a) && n == Run(a) < |a| && a[n] == QUOTE
    ensures ReadsBack(a, rest)
    decreases |a|, 0
  {
    hide Scan;
    var b, slashes := a[n + 1..], Repeat(BACKSLASH, 2 * n + 1);
    var e, t := Escape(b), Scan(rest, false);
    assert Escape(a) == slashes + [QUOTE] + e;
    hide Escape;
    Regroup(slashes, [QUOTE], e, [QUOTE], rest);
    ScanOddQuote(n, e + [QUOTE] + rest, true);
    ScanEscape(b, rest);
    SplitAtRun(a, n, t.arg);
  }

  lemma {:induction false} ScanSlashesChar(a: seq<byte>, n: nat, rest: seq<wchar>)
    requires Ascii(a) && n == Run(a) < |a| && a[n] != QUOTE
    ensures ReadsBack(a, rest)
    decreases |a|, 0
  {
    hide Scan;
    var b, slashes := a[n + 1..], Repeat(BACKSLASH, n);
    var e, t := Escape(b), Scan(rest, false);
    assert Escape(a) == slashes + [a[n]] + e;
    hide Escape;
    Regroup(slashes, [a[n]], e, [QUOTE], rest);
    ScanChar(n, a[n], e + [QUOTE] + rest);
    ScanEscape(b, rest);
    SplitAtRun(a, n, t.arg);
  }

  lemma {:induction false} Regroup(s: seq<wchar>, c: seq<wchar>, e: seq<wchar>, q: seq<wchar>, rest: seq<wchar>)
    ensures (s + c + e) + q + rest == s + c + (e + q + rest)
  {
  }

  lemma {:induction false} SplitAtRun(a: seq<byte>, n: nat, more: seq<byte>)
    requires n == Run(a) < |a|
    ensures a + more == Repeat(BACKSLASH, n) + [a[n]] + (a[n + 1..] + more)
  {
    assert a[..n] == Repeat(BACKSLASH, n);
    hide Run, Repeat;
    Cut(a, n, more);
  }

  lemma {:induction false} Cut(a: seq<byte>, n: nat, more: seq<byte>)
    requires n < |a|
    ensures a + more == a[..n] + [a[n]] + (a[n + 1..] + more)
  {
  }

  /** Every list of ASCII arguments has a command line that parses back to it. */
  lemma {:induction false} ParseSpell(args: seq<seq<byte>>, n: nat)
    requires |args| <= n && forall i | 0 <= i < |args| :: Ascii(args[i])
    ensures Parse(Spell(args), n) == args
    decreases |args|
  {
    hide Scan, SkipBlanks, Spell, Parse;
    if args == [] {
      ParseNothing(n);
    } else {
      SpellFirst(args);
      ParseStep(Spell(args), n);
      ParseSpell(args[1..], n - 1);
      SpellBlank(args[1..]);
      ParseBlank(Spell(args[1..]), n - 1);
    }
  }

  lemma {:induction false} ParseNothing(n: nat)
    ensures Parse(Spell([]), n) == []
  {
  }

  lemma {:induction false} ParseStep(w: seq<wchar>, n: nat)
    requires n > 0 && SkipBlanks(w) != []
    ensures var t := Scan(SkipBlanks(w), false);
            Parse(w, n) == [t.arg] + Parse(t.rest, n - 1)
  {
  }

  lemma {:induction false} SpellFirst(args: seq<seq<byte>>)
    requires args != [] && Ascii(args[0])
    ensures var tail := Spell(args[1..]);
      && SkipBlanks(Spell(args)) != []
      && Scan(SkipBlanks(Spell(args)), false) == Token(args[0], Scan(tail, false).rest)
  {
    hide Scan, Escape;
    var tail := Spell(args[1..]);
    var body := Escape(args[0]) + [QUOTE] + tail;
    assert Spell(args) == [32] + ([QUOTE] + body);
    SkipOne([QUOTE] + body);
    ScanQuote(body, false);
    ScanEscape(args[0], tail);
    ParseBlank(tail, 0);
    assert args[0] + [] == args[0];
  }

  lemma {:induction false} SpellBlank(args: seq<seq<byte>>)
    ensures Spell(args) == [] || IsBlank(Spell(args)[0])
  {
  }

  lemma {:induction false} SkipOne(w: seq<wchar>)
    requires w != [] && !IsBlank(w[0])
    ensures SkipBlanks([32] + w) == w
  {
    assert ([32] + w)[1..] == w;
  }

  /** The blank between two arguments may already have been consumed. */
  lemma {:induction false} ParseBlank(w: seq<wchar>, n: nat)
    requires w == [] || IsBlank(w[0])
    ensures Scan(w, false).arg == []
    ensures Parse(Scan(w, false).rest, n) == Parse(w, n)
  {
  }

  // ---------------------------------------------------------------- words between blanks

  /** A word without spaces, tabs and quotes; backslashes are as good as letters. */
  predicate Word(w: seq<wchar>) {
    w != [] && forall i | 0 <= i < |w| :: w[i] != 32 && w[i] != 9 && w[i] != 34
  }

  /** Spaces and tabs. */
  predicate Gap(w: seq<wchar>) {
    forall i | 0 <= i < |w| :: w[i] == 32 || w[i] == 9
  }

  /** The word as an argument: every character above 127 as '?'. */
  function Narrowed(w: seq<wchar>): (a: seq<byte>)
    ensures |a| == |w| && forall i | 0 <= i < |w| :: a[i] == if w[i] < 128 then w[i] else 63
  {
    seq(|w|, i requires 0 <= i < |w| => Narrow(w[i]))
  }

  function AllNarrowed(words: seq<seq<wchar>>): (args: seq<seq<byte>>)
    ensures |args| == |words| && forall i | 0 <= i < |words| :: args[i] == Narrowed(words[i])
  {
    seq(|words|, i requires 0 <= i < |words| => Narrowed(words[i]))
  }

  /** Each gap and then its word, and a last gap. */
  function Line(gaps: seq<seq<wchar>>, words: seq<seq<wchar>>, last: seq<wchar>): seq<wchar>
    requires |gaps| == |words|
  {
    if words == [] then last else gaps[0] + words[0] + Line(gaps[1..], words[1..], last)
  }

  /** Words, all gaps but the first and the last not empty. */
  predicate Lined(gaps: seq<seq<wchar>>, words: seq<seq<wchar>>, last: seq<wchar>) {
    && |gaps| == |words| && Gap(last)
    && (forall i | 0 <= i < |words| :: Word(words[i]) && Gap(gaps[i]))
    && forall i | 1 <= i < |gaps| :: gaps[i] != []
  }

  lemma {:induction false} SkipGap(gap: seq<wchar>, w: seq<wchar>)
    requires Gap(gap) && (w == [] || (w[0] != 32 && w[0] != 9))
    ensures SkipBlanks(gap + w) == w
    decreases |gap|
  {
    if gap == [] {
      assert gap + w == w;
    } else {
      SkipGap(gap[1..], w);
      assert (gap + w)[1..] == gap[1..] + w;
    }
  }

  /** Backslashes that no quote follows are literal. */
  lemma {:induction false} ScanSlashes(n: nat, v: seq<wchar>)
    requires n > 0 && (v == [] || (v[0] != QUOTE && v[0] != BACKSLASH))
    ensures Scan(Repeat(BACKSLASH, n) + v, false)
         == Token(Repeat(BACKSLASH, n) + Scan(v, false).arg, Scan(v, false).rest)
  {
    var w := Repeat(BACKSLASH, n) + v;
    RunIs(w, n);
    assert w[n..] == v;
  }

  lemma {:induction false} ScanLetter(c: wchar, rest: seq<wchar>)
    requires c != QUOTE && c != BACKSLASH && c != 32 && c != 9
    ensures Scan([c] + rest, false) == Token([Narrow(c)] + Scan(rest, false).arg, Scan(rest, false).rest)
  {
    assert ([c] + rest)[1..] == rest;
  }

  lemma {:induction false} ScanEnd(rest: seq<wchar>)
    requires rest == [] || rest[0] == 32 || rest[0] == 9
    ensures Scan(rest, false) == Token([], if rest == [] then [] else rest[1..])
  {
  }

  /** A word reads as itself up to the blank that ends it. */
  lemma {:induction false} ScanWord(w: seq<wchar>, rest: seq<wchar>)
    requires (w == [] || Word(w)) && (rest == [] || rest[0] == 32 || rest[0] == 9)
    ensures Scan(w + rest, false) == Token(Narrowed(w), if rest == [] then [] else rest[1..])
    decreases |w|
  {
    hide Scan, Repeat;
    if w == [] {
      assert w + rest == rest && Narrowed(w) == [];
      ScanEnd(rest);
    } else if w[0] == BACKSLASH {
      var n := Run(w);
      var v := w[n..];
      assert w[..n] == Repeat(BACKSLASH, n) == Narrowed(w[..n]);
      ScanWord(v, rest);
      ScanSlashes(n, v + rest);
      CutNarrowed(w, n, rest);
    } else {
      ScanWord(w[1..], rest);
      ScanLetter(w[0], w[1..] + rest);
      assert w[..1] == [w[0]] && Narrowed(w[..1]) == [Narrow(w[0])];
      CutNarrowed(w, 1, rest);
    }
  }

  lemma {:induction false} CutNarrowed(w: seq<wchar>, n: nat, rest: seq<wchar>)
    requires n <= |w|
    ensures Narrowed(w) == Narrowed(w[..n]) + Narrowed(w[n..]) && w + rest == w[..n] + (w[n..] + rest)
  {
  }

  lemma {:induction false} LineRest(gaps: seq<seq<wchar>>, words: seq<seq<wchar>>, last: seq<wchar>)
    requires Lined(gaps, words, last) && (words == [] || gaps[0] != [])
    ensures var w := Line(gaps, words, last); w == [] || w[0] == 32 || w[0] == 9
  {
  }

  /** Unquoted words between any runs of spaces and tabs parse to those words, in order, up to the limit. */
  lemma {:induction false} ParseWords(gaps: seq<seq<wchar>>, words: seq<seq<wchar>>, last: seq<wchar>, n: nat)
    requires Lined(gaps, words, last)
    ensures Parse(Line(gaps, words, last), n) == AllNarrowed(words[..if |words| < n then |words| else n])
    decreases |words|
  {
    hide Scan, SkipBlanks, Gap, Word, Narrowed;
    if words == [] {
      assert last + [] == last;
      SkipGap(last, []);
    } else if n > 0 {
      var w, rest := words[0], Line(gaps[1..], words[1..], last);
      assert Lined(gaps[1..], words[1..], last);
      WordStarts(w, rest);
      assert gaps[0] + w + rest == gaps[0] + (w + rest);
      SkipGap(gaps[0], w + rest);
      LineRest(gaps[1..], words[1..], last);
      ScanWord(w, rest);
      ParseWords(gaps[1..], words[1..], last, n - 1);
      BlankRest(rest, n - 1);
    }
  }

  lemma {:induction false} WordStarts(w: seq<wchar>, rest: seq<wchar>)
    requires Word(w)
    ensures w + rest != [] && (w + rest)[0] != 32 && (w + rest)[0] != 9
  {
  }

  lemma {:induction false} BlankRest(w: seq<wchar>, n: nat)
    requires w == [] || w[0] == 32 || w[0] == 9
    ensures Parse(if w == [] then [] else w[1..], n) == Parse(w, n)
  {
  }
}
