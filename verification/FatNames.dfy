/** Names on the FAT16 volume (src/boot/fatbuild.c, src/boot/fatread.c): 8.3 encoding on both sides, the
    aliases given to long names, and the directory entries and long-name slots as bytes. */
module FatNames {
  import opened Bits

  const DOT: byte := 46
  const SPACE: byte := 32
  const TILDE: byte := 126

  function Up(c: byte): byte { if 97 <= c <= 122 then c - 32 else c }

  function UpAll(s: seq<byte>): (r: seq<byte>)
    ensures |r| == |s| && forall i | 0 <= i < |s| :: r[i] == Up(s[i])
  {
    seq(|s|, i requires 0 <= i < |s| => Up(s[i]))
  }

  /** Index of the last dot, -1 for none. */
  function LastDot(s: seq<byte>): (d: int)
    ensures -1 <= d < |s|
    ensures d >= 0 ==> s[d] == DOT
    ensures forall i | d < i < |s| :: s[i] != DOT
  {
    if s == [] then -1 else if s[|s| - 1] == DOT then |s| - 1 else LastDot(s[..|s| - 1])
  }

  function StemLen(s: seq<byte>): nat { if LastDot(s) >= 0 then LastDot(s) else |s| }
  function ExtLen(s: seq<byte>): nat { if LastDot(s) >= 0 then |s| - LastDot(s) - 1 else 0 }

  /** The component fits a stem of 1 to 8 and an extension of up to 3 characters. */
  predicate Fits83(s: seq<byte>) { 0 < StemLen(s) <= 8 && ExtLen(s) <= 3 }

  /** Byte `i` of the 11-byte name: stem, extension, padding; what does not fit is cut off. */
  function NameByte(s: seq<byte>, i: nat): byte
    requires i < 11
  {
    if i < 8 then if i < StemLen(s) then Up(s[i]) else SPACE
    else if i - 8 < ExtLen(s) then Up(s[LastDot(s) + 1 + (i - 8)]) else SPACE
  }

  /** The 11-byte name, as the reader encodes any component. */
  function Name11(s: seq<byte>): (r: seq<byte>)
    ensures |r| == 11 && forall i | 0 <= i < 11 :: r[i] == NameByte(s, i)
  {
    seq(11, i requires 0 <= i < 11 => NameByte(s, i))
  }

  /** At most `n` characters of `s` in upper case, filled up with spaces. */
  function Field(s: seq<byte>, n: nat): (r: seq<byte>)
    ensures |r| == n
    ensures forall i | 0 <= i < n ::
      r[i] == if i >= |s| then 32 else if 97 <= s[i] <= 122 then s[i] - 32 else s[i]
  {
    seq(n, i requires 0 <= i < n => if i < |s| then Up(s[i]) else SPACE)
  }

  lemma {:induction false} DotIs(stem: seq<byte>, ext: seq<byte>)
    requires 46 !in ext
    ensures LastDot(stem + [46] + ext) == |stem|
  {
    var s := stem + [46] + ext;
    var d := LastDot(s);
    hide LastDot;
    assert s[|stem|] == 46;
    assert forall i | |stem| < i < |s| :: s[i] in ext;
  }

  /** A name with a dot is a stem of eight and an extension of three characters; it fits if nothing is lost and the stem
      is not empty. */
  lemma {:induction false} DottedName(stem: seq<byte>, ext: seq<byte>)
    requires 46 !in ext
    ensures Name11(stem + [46] + ext) == Field(stem, 8) + Field(ext, 3)
    ensures Fits83(stem + [46] + ext) <==> 1 <= |stem| <= 8 && |ext| <= 3
  {
    hide LastDot, Name11, NameByte;
    var s := stem + [46] + ext;
    DotIs(stem, ext);
    forall i | 0 <= i < 11
      ensures Name11(s)[i] == (Field(stem, 8) + Field(ext, 3))[i]
    {
      DottedByte(stem, ext, i);
    }
  }

  lemma {:induction false} DottedByte(stem: seq<byte>, ext: seq<byte>, i: nat)
    requires 46 !in ext && i < 11
    ensures NameByte(stem + [46] + ext, i) == if i < 8 then Field(stem, 8)[i] else Field(ext, 3)[i - 8]
  {
    hide LastDot;
    DotIs(stem, ext);
  }

  /** Without a dot it is all stem. */
  lemma {:induction false} UndottedName(s: seq<byte>)
    requires 46 !in s
    ensures Name11(s) == Field(s, 8) + Field([], 3)
    ensures Fits83(s) <==> 1 <= |s| <= 8
  {
    var d := LastDot(s);
    hide LastDot;
    assert d < 0;
  }

  method FindLastDot(comp: seq<byte>) returns (dot: int)
    ensures dot == LastDot(comp)
  {
    dot := -1;
    var i := |comp| - 1;
    while i >= 0
      invariant -1 <= i < |comp| && dot == -1 && forall j | i < j < |comp| :: comp[j] != DOT
    {
      if comp[i] == DOT {
        return i;
      }
      i := i - 1;
    }
  }

  function Blank(n: nat): (r: seq<byte>)
    ensures |r| == n && forall i | 0 <= i < n :: r[i] == SPACE
  {
    seq(n, _ => SPACE)
  }

  /** enc83 of the builder: whether the component fits, and the name it is given then. */
  method Enc83(comp: seq<byte>) returns (fits: bool, out: seq<byte>)
    ensures fits <==> Fits83(comp)
    ensures fits ==> out == Name11(comp)
  {
    out := Blank(11);
    var dot := FindLastDot(comp);
    hide LastDot;
    var stemLen := if dot >= 0 then dot else |comp|;
    var extLen := if dot >= 0 then |comp| - dot - 1 else 0;
    if stemLen == 0 || stemLen > 8 || extLen > 3 {
      return false, out;
    }
    for k := 0 to stemLen
      invariant |out| == 11
      invariant forall j | 0 <= j < 11 :: out[j] == if j < k then Up(comp[j]) else SPACE
    {
      out := out[k := Up(comp[k])];
    }
    for k := 0 to extLen
      invariant |out| == 11
      invariant forall j | 0 <= j < 8 :: out[j] == NameByte(comp, j)
      invariant forall j | 8 <= j < 11 :: out[j] == if j < 8 + k then NameByte(comp, j) else SPACE
    {
      out := out[8 + k := Up(comp[dot + 1 + k])];
    }
    assert out == Name11(comp);
    return true, out;
  }

  lemma {:induction false} SameDot(a: seq<byte>, b: seq<byte>)
    requires |a| == |b| && forall i | 0 <= i < |a| :: a[i] == DOT <==> b[i] == DOT
    ensures LastDot(a) == LastDot(b)
  {
    var d, e := LastDot(a), LastDot(b);
    hide LastDot;
  }

  /** Names that agree up to case encode alike. */
  lemma {:induction false} CaseBlind(a: seq<byte>, b: seq<byte>)
    requires UpAll(a) == UpAll(b)
    ensures Name11(a) == Name11(b) && (Fits83(a) <==> Fits83(b))
  {
    assert |a| == |UpAll(a)| == |b|;
    assert forall i | 0 <= i < |a| :: Up(a[i]) == UpAll(a)[i] && Up(b[i]) == UpAll(b)[i];
    SameDot(a, b);
    hide LastDot, UpAll;
    assert forall i | 0 <= i < 11 :: NameByte(a, i) == NameByte(b, i);
  }

  // ---------------------------------------------------------------- aliases for long names

  predicate IsAlnum(c: byte) { 65 <= c <= 90 || 48 <= c <= 57 }

  /** The first `limit` letters and digits among the first `n` characters, in upper case. */
  function Alnums(s: seq<byte>, n: nat, limit: nat): (r: seq<byte>)
    requires n <= |s|
    ensures |r| <= limit && forall i | 0 <= i < |r| :: IsAlnum(r[i])
  {
    if n == 0 then [] else
    var r := Alnums(s, n - 1, limit);
    if |r| < limit && IsAlnum(Up(s[n - 1])) then r + [Up(s[n - 1])] else r
  }

  const FILE: seq<byte> := [70, 73, 76, 69]

  function AliasStem(name: seq<byte>): (r: seq<byte>)
    ensures r != [] && forall i | 0 <= i < |r| :: IsAlnum(r[i])
  {
    var r := Alnums(name, StemLen(name), 31);
    if r == [] then FILE else r
  }

  function AliasExt(name: seq<byte>): (r: seq<byte>)
    ensures |r| <= 3 && forall i | 0 <= i < |r| :: IsAlnum(r[i])
  {
    var dot := LastDot(name);
    if dot >= 0 then Alnums(name[dot + 1..], |name| - dot - 1, 3) else []
  }

  predicate IsDigit(c: byte) { 48 <= c <= 57 }

  function Digits(n: nat): (r: seq<byte>)
    ensures r != [] && forall i | 0 <= i < |r| :: IsDigit(r[i])
  {
    if n < 10 then [48 + n] else Digits(n / 10) + [48 + n % 10]
  }

  function Value(d: seq<byte>): int {
    if d == [] then 0 else 10 * Value(d[..|d| - 1]) + (d[|d| - 1] as int - 48)
  }

  lemma {:induction false} DigitsValue(n: nat)
    ensures Value(Digits(n)) == n
  {
    if n >= 10 {
      DigitsValue(n / 10);
      assert Digits(n)[..|Digits(n)| - 1] == Digits(n / 10);
    } else {
      assert Digits(n)[..0] == [];
    }
  }

  lemma {:induction false} DigitsShort(n: nat)
    requires n < 1000000
    ensures |Digits(n)| <= 6
  {
    assert |Digits(n / 100000)| == 1 || n < 100000;
    DigitsStep(n); DigitsStep(n / 10); DigitsStep(n / 100); DigitsStep(n / 1000); DigitsStep(n / 10000);
    hide Digits;
  }

  lemma {:induction false} DigitsStep(n: nat)
    ensures n < 10 ==> |Digits(n)| == 1
    ensures n >= 10 ==> |Digits(n)| == |Digits(n / 10)| + 1
  {
  }

  function Pad(s: seq<byte>, n: nat): (r: seq<byte>)
    requires |s| <= n
    ensures |r| == n && forall i | 0 <= i < n :: r[i] == if i < |s| then s[i] else SPACE
  {
    s + Blank(n - |s|)
  }

  /** How much of the stem is kept before a suffix of `n` characters. */
  function Kept(name: seq<byte>, n: nat): nat
    requires n <= 8
  {
    if 8 - n > |AliasStem(name)| then |AliasStem(name)| else 8 - n
  }

  const ALIASES: nat := 1000000

  /** Candidate number `num`: NAME~num.EXT. */
  function Alias(name: seq<byte>, num: nat): (r: seq<byte>)
    requires 1 <= num < ALIASES
    ensures |r| == 11
  {
    DigitsShort(num);
    var suffix := [TILDE] + Digits(num);
    Pad(AliasStem(name)[..Kept(name, |suffix|)] + suffix, 8) + Pad(AliasExt(name), 3)
  }

  /** The letters and digits of `s`, in upper case. */
  function Letters(s: seq<byte>): seq<byte> {
    if s == [] then []
    else if 97 <= s[0] <= 122 then [s[0] - 32] + Letters(s[1..])
    else if 65 <= s[0] <= 90 || 48 <= s[0] <= 57 then [s[0]] + Letters(s[1..])
    else Letters(s[1..])
  }

  function Prefix(s: seq<byte>, n: nat): seq<byte> { if |s| <= n then s else s[..n] }

  lemma {:induction false} LettersLast(s: seq<byte>)
    requires s != []
    ensures var n := |s| - 1;
      Letters(s) == Letters(s[..n]) + (if IsAlnum(Up(s[n])) then [Up(s[n])] else [])
    decreases |s|
  {
    var n := |s| - 1;
    if n > 0 {
      LettersLast(s[1..]);
      assert s[1..][..n - 1] == s[..n][1..];
    } else {
      assert s[1..] == [] && s[..0] == [];
    }
  }

  lemma {:induction false} AlnumsAre(s: seq<byte>, n: nat, limit: nat)
    requires n <= |s|
    ensures Alnums(s, n, limit) == Prefix(Letters(s[..n]), limit)
    decreases n
  {
    if n > 0 {
      AlnumsAre(s, n - 1, limit);
      assert s[..n][..n - 1] == s[..n - 1];
      LettersLast(s[..n]);
      hide Letters, Alnums;
      AlnumsStep(s, n, limit);
    }
  }

  lemma {:induction false} AlnumsStep(s: seq<byte>, n: nat, limit: nat)
    requires 0 < n <= |s|
    ensures var r := Alnums(s, n - 1, limit);
      Alnums(s, n, limit) == if |r| < limit && IsAlnum(Up(s[n - 1])) then r + [Up(s[n - 1])] else r
  {
  }

  function StemLetters(name: seq<byte>): seq<byte> {
    Letters(if LastDot(name) >= 0 then name[..LastDot(name)] else name)
  }
  function ExtLetters(name: seq<byte>): seq<byte> {
    if LastDot(name) >= 0 then Letters(name[LastDot(name) + 1..]) else []
  }

  /** As many characters of the stem as leave room for a tilde and the number in eight places, FILE if there are none,
      and three of the extension. */
  function SpelledAlias(stem: seq<byte>, ext: seq<byte>, number: seq<byte>): seq<byte>
    requires |number| <= 6
  {
    var base := if stem == [] then [70, 73, 76, 69] else stem;
    Pad(Prefix(base, 7 - |number|) + [126] + number, 8) + Pad(Prefix(ext, 3), 3)
  }

  /** A candidate is made of the letters and digits of stem and extension and of the number in decimal. */
  lemma {:induction false} AliasIs(name: seq<byte>, num: nat)
    requires 1 <= num < ALIASES
    ensures |Digits(num)| <= 6 && Value(Digits(num)) == num
    ensures Alias(name, num) == SpelledAlias(StemLetters(name), ExtLetters(name), Digits(num))
  {
    hide LastDot, Letters, Alnums, Digits, AliasStem, AliasExt, Pad, StemLetters, ExtLetters;
    DigitsShort(num);
    DigitsValue(num);
    StemIs(name);
    ExtIs(name);
    var stem := StemLetters(name);
    var n := 7 - |Digits(num)|;
    PrefixTwice(if stem == [] then FILE else stem, 31, n);
    assert AliasStem(name)[..Kept(name, 8 - n)] == Prefix(AliasStem(name), n);
    assert Prefix(AliasStem(name), n) + ([TILDE] + Digits(num)) == Prefix(AliasStem(name), n) + [TILDE] + Digits(num);
  }

  lemma {:induction false} StemIs(name: seq<byte>)
    ensures AliasStem(name) == Prefix(if StemLetters(name) == [] then FILE else StemLetters(name), 31)
  {
    hide LastDot, Letters, Alnums;
    AlnumsAre(name, StemLen(name), 31);
    assert name[..|name|] == name;
  }

  lemma {:induction false} ExtIs(name: seq<byte>)
    ensures AliasExt(name) == Prefix(ExtLetters(name), 3)
  {
    hide LastDot, Letters, Alnums;
    var dot := LastDot(name);
    if dot >= 0 {
      var ext := name[dot + 1..];
      AlnumsAre(ext, |ext|, 3);
      assert ext[..|ext|] == ext;
    }
  }

  lemma {:induction false} PrefixTwice(s: seq<byte>, m: nat, n: nat)
    requires n <= m
    ensures Prefix(Prefix(s, m), n) == Prefix(s, n)
  {
  }

  /** Where the tilde of a candidate stands and what surrounds it. */
  lemma {:induction false} AliasShape(name: seq<byte>, num: nat) returns (k: nat)
    requires 1 <= num < ALIASES
    ensures k + 1 + |Digits(num)| <= 8 && Alias(name, num)[k] == TILDE
    ensures forall i | 0 <= i < k :: Alias(name, num)[i] != TILDE
    ensures forall i | 0 <= i < |Digits(num)| :: Alias(name, num)[k + 1 + i] == Digits(num)[i]
    ensures k + 1 + |Digits(num)| < 8 ==> Alias(name, num)[k + 1 + |Digits(num)|] == SPACE
  {
    DigitsShort(num);
    hide Digits, AliasStem, AliasExt;
    k := Kept(name, 1 + |Digits(num)|);
    var head := AliasStem(name)[..k] + ([TILDE] + Digits(num));
    var padded := Pad(head, 8);
    assert |head| == k + 1 + |Digits(num)|;
    assert forall i | 0 <= i < 8 :: Alias(name, num)[i] == padded[i];
  }

  /** `a` reads, from `k` on: a tilde, the first in `a`, then `d`, then a space unless it ends there. */
  ghost predicate Reads(a: seq<byte>, k: nat, d: seq<byte>) {
    && |a| == 11 && k + 1 + |d| <= 8 && a[k] == TILDE && (forall i | 0 <= i < k :: a[i] != TILDE)
    && (forall j | k + 1 <= j < k + 1 + |d| :: a[j] == d[j - (k + 1)] && IsDigit(a[j]))
    && (k + 1 + |d| < 8 ==> a[k + 1 + |d|] == SPACE)
  }

  lemma {:induction false} ReadsUnique(a: seq<byte>, k: nat, d: seq<byte>, l: nat, e: seq<byte>)
    requires Reads(a, k, d) && Reads(a, l, e)
    ensures d == e
  {
    assert k == l;
    assert |d| == |e|;
    assert forall i | 0 <= i < |d| :: d[i] == a[k + 1 + i] && e[i] == a[k + 1 + i];
  }

  /** Different numbers give different candidates. */
  lemma {:induction false} AliasInjective(name: seq<byte>, m: nat, n: nat)
    requires 1 <= m < n < ALIASES
    ensures Alias(name, m) != Alias(name, n)
  {
    var k := AliasShape(name, m);
    var l := AliasShape(name, n);
    assert Reads(Alias(name, m), k, Digits(m)) && Reads(Alias(name, n), l, Digits(n));
    DigitsValue(m);
    DigitsValue(n);
    hide Alias, Value, Digits, Reads;
    if Alias(name, m) == Alias(name, n) {
      ReadsUnique(Alias(name, m), k, Digits(m), l, Digits(n));
    }
  }

  /** The candidates 1 to n. */
  function AliasSet(name: seq<byte>, n: nat): set<seq<byte>>
    requires n < ALIASES
  {
    if n == 0 then {} else AliasSet(name, n - 1) + {Alias(name, n)}
  }

  lemma {:induction false} AliasSetSize(name: seq<byte>, n: nat)
    requires n < ALIASES
    ensures |AliasSet(name, n)| == n
    ensures forall a | a in AliasSet(name, n) :: exists k: nat :: 1 <= k <= n && a == Alias(name, k)
    decreases n
  {
    hide Alias;
    if n > 0 {
      AliasSetSize(name, n - 1);
      if Alias(name, n) in AliasSet(name, n - 1) {
        var k: nat :| 1 <= k <= n - 1 && Alias(name, n) == Alias(name, k);
        AliasInjective(name, k, n);
      }
    }
  }

  lemma {:induction false} FewDistinct<T>(s: seq<T>)
    ensures |set x | x in s| <= |s|
  {
    var all := set x | x in s;
    if s != [] {
      var n := |s| - 1;
      FewDistinct(s[..n]);
      var head := set x | x in s[..n];
      assert all == head + {s[n]};
    }
  }

  /** Among one candidate more than there are names taken, one is free. */
  lemma {:induction false} SomeFree(name: seq<byte>, used: seq<seq<byte>>)
    requires |used| + 1 < ALIASES
    ensures exists k: nat :: 1 <= k <= |used| + 1 && Alias(name, k) !in used
  {
    hide Alias;
    var n := |used| + 1;
    if forall k: nat | 1 <= k <= n :: Alias(name, k) in used {
      AliasSetSize(name, n);
      FewDistinct(used);
      var taken := set x | x in used;
      assert AliasSet(name, n) <= taken;
      SubsetSize(AliasSet(name, n), taken);
    }
  }

  lemma {:induction false} SubsetSize<T>(a: set<T>, b: set<T>)
    requires a <= b
    ensures |a| <= |b|
  {
    assert b == a + (b - a);
  }

  /** The first candidate from `num` on that is not taken; blanks when all are. */
  function FirstFree(name: seq<byte>, used: seq<seq<byte>>, num: nat): (r: seq<byte>)
    requires 1 <= num <= ALIASES
    ensures |r| == 11
    decreases ALIASES - num
  {
    if num == ALIASES then Blank(11)
    else if Alias(name, num) !in used then Alias(name, num)
    else FirstFree(name, used, num + 1)
  }

  lemma {:induction false} FirstFreeIs(name: seq<byte>, used: seq<seq<byte>>, num: nat, k: nat)
    requires 1 <= num <= k < ALIASES && Alias(name, k) !in used
    ensures FirstFree(name, used, num) !in used
    ensures exists j: nat :: num <= j <= k && FirstFree(name, used, num) == Alias(name, j)
    decreases ALIASES - num
  {
    hide Alias;
    if Alias(name, num) in used {
      FirstFreeIs(name, used, num + 1, k);
    }
  }

  /** make_alias: the alias of a long name in a directory where `used` names are taken. */
  method MakeAlias(name: seq<byte>, used: seq<seq<byte>>) returns (out: seq<byte>)
    ensures out == FirstFree(name, used, 1)
  {
    hide Alias;
    var num := 1;
    while num < ALIASES
      invariant 1 <= num <= ALIASES && FirstFree(name, used, num) == FirstFree(name, used, 1)
    {
      var cand := Alias(name, num);
      var clash := false;
      for u := 0 to |used|
        invariant !clash && cand !in used[..u]
      {
        if used[u] == cand {
          clash := true;
          break;
        }
      }
      if !clash {
        assert used[..|used|] == used;
        return cand;
      }
      num := num + 1;
    }
    return Blank(11);
  }

  /** With k names taken the alias is fresh, found within k + 1 attempts, and has a tilde in its stem: the
      fallback is never reached. */
  lemma {:induction false} AliasFresh(name: seq<byte>, used: seq<seq<byte>>)
    requires |used| + 1 < ALIASES
    ensures FirstFree(name, used, 1) !in used
    ensures exists j: nat :: 1 <= j <= |used| + 1 && FirstFree(name, used, 1) == Alias(name, j)
    ensures TILDE in FirstFree(name, used, 1)
  {
    hide Alias, FirstFree;
    SomeFree(name, used);
    var k: nat :| 1 <= k <= |used| + 1 && Alias(name, k) !in used;
    FirstFreeIs(name, used, 1, k);
    var j: nat :| 1 <= j <= k && FirstFree(name, used, 1) == Alias(name, j);
    var t := AliasShape(name, j);
  }

  /** An alias starts with a letter, a digit or the tilde. */
  lemma {:induction false} AliasHead(name: seq<byte>, num: nat)
    requires 1 <= num < ALIASES
    ensures IsAlnum(Alias(name, num)[0]) || Alias(name, num)[0] == TILDE
  {
    DigitsShort(num);
    hide Digits, AliasStem, AliasExt;
    var suffix := [TILDE] + Digits(num);
    var head := AliasStem(name)[..Kept(name, |suffix|)] + suffix;
    assert Alias(name, num)[0] == Pad(head, 8)[0] == head[0];
  }

  // ---------------------------------------------------------------- directory entries

  const ATTR_VOLUME_ID: byte := 0x08
  const ATTR_DIRECTORY: byte := 0x10
  const ATTR_ARCHIVE: byte := 0x20
  const ATTR_LONG_NAME: byte := 0x0F

  function Le16(v: nat): seq<byte> { [v % 256, v / 256 % 256] }
  function Le32(v: nat): seq<byte> { [v % 256, v / 256 % 256, v / 65536 % 256, v / 16777216 % 256] }

  function Rd16(s: seq<byte>, o: nat): nat
    requires o + 2 <= |s|
  {
    s[o] as int + 256 * s[o + 1] as int
  }
  function Rd32(s: seq<byte>, o: nat): nat
    requires o + 4 <= |s|
  {
    s[o] as int + 256 * s[o + 1] as int + 65536 * s[o + 2] as int + 16777216 * s[o + 3] as int
  }

  /** A 32-byte directory entry, with the fixed 1980-01-01 dates. */
  function Dirent(name: seq<byte>, attr: byte, clus: nat, size: nat): (r: seq<byte>)
    requires |name| == 11
    ensures |r| == 32
  {
    name + [attr] + [0, 0] + [0, 0] + [0x21, 0] + [0x21, 0] + [0, 0] + [0, 0] + [0x21, 0] + Le16(clus) + Le32(size)
  }

  /** What is read back from an entry. */
  lemma {:induction false} DirentFields(name: seq<byte>, attr: byte, clus: nat, size: nat)
    requires |name| == 11 && clus < 65536 && size < WORD32
    ensures var e := Dirent(name, attr, clus, size);
      e[..11] == name && e[11] == attr && Rd16(e, 26) == clus && Rd32(e, 28) == size
  {
    Le16Back(clus);
    Le32Back(size);
    var e := Dirent(name, attr, clus, size);
    assert e[26..28] == Le16(clus) && e[28..32] == Le32(size);
    assert e[26] == e[26..28][0] && e[27] == e[26..28][1];
    assert e[28] == e[28..32][0] && e[29] == e[28..32][1] && e[30] == e[28..32][2] && e[31] == e[28..32][3];
  }

  /** The date in a 16-bit field: day, month, years since 1980. */
  predicate IsDate(v: nat, day: nat, month: nat, year: nat) {
    v % 32 == day && v / 32 % 16 == month && v / 512 == year - 1980
  }

  /** Created, last read and last written on 1 January 1980 at midnight; everything else in the entry is zero. */
  lemma {:induction false} DirentDates(name: seq<byte>, attr: byte, clus: nat, size: nat)
    requires |name| == 11
    ensures var e := Dirent(name, attr, clus, size);
      && IsDate(Rd16(e, 16), 1, 1, 1980) && IsDate(Rd16(e, 18), 1, 1, 1980) && IsDate(Rd16(e, 24), 1, 1, 1980)
      && Rd16(e, 12) == 0 && Rd16(e, 14) == 0 && Rd16(e, 20) == 0 && Rd16(e, 22) == 0
  {
    hide Le16, Le32;
  }

  lemma {:induction false} Le16Back(v: nat)
    requires v < 65536
    ensures Rd16(Le16(v), 0) == v
  {
  }

  lemma {:induction false} Le32Back(v: nat)
    requires v < WORD32
    ensures Rd32(Le32(v), 0) == v
  {
    var a, b, c := v / 256, v / 65536, v / 16777216;
    assert b == a / 256 && c == b / 256;
    assert v == 256 * a + v % 256 && a == 256 * b + a % 256 && b == 256 * c + b % 256;
  }

  // ---------------------------------------------------------------- long-name slots

  /** The rotating checksum of an 8.3 name. */
  function Checksum(name: seq<byte>): byte
  {
    if name == [] then 0 else
    var sum := Checksum(name[..|name| - 1]);
    (sum % 2 * 128 + sum / 2 + name[|name| - 1] as int) % 256
  }

  /** The byte's bits moved one place down, the lowest to the top. */
  ghost predicate Rotated(sum: byte, r: byte) {
    forall k | 0 <= k < 8 :: BitOf(r, k) == BitOf(sum, (k + 1) % 8)
  }

  function BitOf(v: nat, k: nat): nat {
    if k == 0 then v % 2 else BitOf(v / 2, k - 1)
  }

  lemma {:induction false} RotateDown(sum: byte)
    ensures Rotated(sum, sum % 2 * 128 + sum / 2)
  {
    var r := sum % 2 * 128 + sum / 2;
    forall k | 0 <= k < 7
      ensures BitOf(r, k) == BitOf(sum, k + 1)
    {
      TopBit(sum % 2, sum / 2, 7, k);
    }
    TopIsLow(sum % 2, sum / 2, 7);
  }

  /** What stands from bit `e` on does not show below. */
  lemma {:induction false} TopBit(b: nat, v: nat, e: nat, k: nat)
    requires k < e
    ensures BitOf(b * Pow2(e) + v, k) == BitOf(v, k)
    decreases k
  {
    assert (b * Pow2(e) + v) == 2 * (b * Pow2(e - 1)) + v;
    if k > 0 {
      TopBit(b, v / 2, e - 1, k - 1);
    }
  }

  lemma {:induction false} TopIsLow(b: nat, v: nat, e: nat)
    requires v < Pow2(e) && b < 2
    ensures BitOf(b * Pow2(e) + v, e) == b
    decreases e
  {
    if e > 0 {
      assert (b * Pow2(e) + v) == 2 * (b * Pow2(e - 1)) + v;
      TopIsLow(b, v / 2, e - 1);
    }
  }

  /** The checksum of nothing is 0; one more byte rotates it one bit to the right and adds the byte, in 8 bits. */
  lemma {:induction false} ChecksumStep(name: seq<byte>, c: byte) returns (r: byte)
    ensures Checksum([]) == 0
    ensures Rotated(Checksum(name), r) && Checksum(name + [c]) == (r + c) % 256
  {
    var sum := Checksum(name);
    r := sum % 2 * 128 + sum / 2;
    RotateDown(sum);
    assert (name + [c])[..|name|] == name;
  }

  function Slots(name: seq<byte>): nat { (|name| + 12) / 13 }

  /** UTF-16 unit `p` of the name as the slots carry it: terminated, then filled with 0xFFFF. */
  function Unit(name: seq<byte>, p: nat): nat {
    if p < |name| then name[p] else if p == |name| then 0 else 0xFFFF
  }

  /** Which of a slot's 13 units starts, or started, at byte `j`: 5, then 6, then 2 of them. */
  function UnitAt(j: nat): int
  {
    if 1 <= j <= 10 then (j - 1) / 2 else if 14 <= j <= 25 then 5 + (j - 14) / 2
    else if 28 <= j <= 31 then 11 + (j - 28) / 2 else -1
  }

  function UnitOffset(k: nat): nat
    requires k < 13
  {
    if k < 5 then 1 + 2 * k else if k < 11 then 14 + 2 * (k - 5) else 28 + 2 * (k - 11)
  }

  /** Byte `j` of the slot with sequence number `q`. */
  function SlotByte(name: seq<byte>, alias: seq<byte>, q: nat, j: nat): byte
    requires 1 <= q <= Slots(name) && |name| <= 63 && j < 32
  {
    if j == 0 then (if q == Slots(name) then q + 0x40 else q)
    else if j == 11 then ATTR_LONG_NAME
    else if j == 13 then Checksum(alias)
    else if UnitAt(j) >= 0 then
      var u := Unit(name, (q - 1) * 13 + UnitAt(j));
      if j == UnitOffset(UnitAt(j)) then u % 256 else u / 256
    else 0
  }

  function Slot(name: seq<byte>, alias: seq<byte>, q: nat): (r: seq<byte>)
    requires 1 <= q <= Slots(name) && |name| <= 63
    ensures |r| == 32 && forall j | 0 <= j < 32 :: r[j] == SlotByte(name, alias, q, j)
  {
    seq(32, j requires 0 <= j < 32 => SlotByte(name, alias, q, j))
  }

  /** The slots from sequence number `q` down to 1, as they stand on disk. */
  function SlotChain(name: seq<byte>, alias: seq<byte>, q: nat): (r: seq<byte>)
    requires q <= Slots(name) && |name| <= 63
    ensures |r| == 32 * q
  {
    if q == 0 then [] else Slot(name, alias, q) + SlotChain(name, alias, q - 1)
  }

  /** The slot chain carries the long name: unit `k` of its part `s` stands in the slot for that part, the first
      part in the last slot. */
  lemma {:induction false} SlotsCarryName(name: seq<byte>, alias: seq<byte>, q: nat, s: nat, k: nat)
    requires q <= Slots(name) && |name| <= 63 && s < q && k < 13
    ensures var o := 32 * (q - 1 - s) + UnitOffset(k);
            o + 2 <= 32 * q && Rd16(SlotChain(name, alias, q), o) == Unit(name, 13 * s + k)
    decreases q
  {
    hide Slot, Rd16, Unit, UnitOffset, Slots, SlotChain;
    UnitFits(k);
    ChainHead(name, alias, q);
    if s < q - 1 {
      SlotsCarryName(name, alias, q - 1, s, k);
      ChainAfter(name, alias, q, 32 * (q - 2 - s) + UnitOffset(k));
    } else {
      SlotUnit(name, alias, q, k);
      Rd16Before(Slot(name, alias, q), SlotChain(name, alias, q - 1), UnitOffset(k));
    }
  }

  lemma {:induction false} UnitFits(k: nat)
    requires k < 13
    ensures UnitOffset(k) + 2 <= 32
  {
  }

  lemma {:induction false} ChainAfter(name: seq<byte>, alias: seq<byte>, q: nat, o: nat)
    requires 1 <= q <= Slots(name) && |name| <= 63 && o + 2 <= 32 * (q - 1)
    ensures Rd16(SlotChain(name, alias, q), 32 + o) == Rd16(SlotChain(name, alias, q - 1), o)
  {
    hide Slot, Rd16, Slots, SlotChain;
    ChainHead(name, alias, q);
    Rd16After(Slot(name, alias, q), SlotChain(name, alias, q - 1), o);
  }

  lemma {:induction false} ChainHead(name: seq<byte>, alias: seq<byte>, q: nat)
    requires 1 <= q <= Slots(name) && |name| <= 63
    ensures SlotChain(name, alias, q) == Slot(name, alias, q) + SlotChain(name, alias, q - 1)
    ensures |Slot(name, alias, q)| == 32 && |SlotChain(name, alias, q - 1)| == 32 * (q - 1)
  {
    hide Slot, Slots;
  }

  lemma {:induction false} Rd16Before(a: seq<byte>, b: seq<byte>, o: nat)
    requires o + 2 <= |a|
    ensures Rd16(a + b, o) == Rd16(a, o)
  {
  }

  lemma {:induction false} Rd16After(a: seq<byte>, b: seq<byte>, o: nat)
    requires o + 2 <= |b|
    ensures Rd16(a + b, |a| + o) == Rd16(b, o)
  {
  }

  lemma {:induction false} SlotUnit(name: seq<byte>, alias: seq<byte>, q: nat, k: nat)
    requires 1 <= q <= Slots(name) && |name| <= 63 && k < 13
    ensures UnitOffset(k) + 2 <= 32 && Rd16(Slot(name, alias, q), UnitOffset(k)) == Unit(name, (q - 1) * 13 + k)
  {
    UnitPlace(k);
    hide UnitAt;
  }

  lemma {:induction false} UnitPlace(k: nat)
    requires k < 13
    ensures var j := UnitOffset(k); UnitAt(j) == k && UnitAt(j + 1) == k && j + 1 < 32 && j != 0 && j != 11 && j != 13
    ensures UnitOffset(k) + 1 != 11 && UnitOffset(k) + 1 != 13
    ensures UnitOffset(UnitAt(UnitOffset(k))) == UnitOffset(k)
  {
  }
}
