/**
  UTF-8 as the form engine relies on it: the byte encoding of one Unicode scalar
  value (what Rust's `char::encode_utf8` and `char::len_utf8` do), the decoding of a
  whole byte string (what makes a Rust `String` well formed and what `str::chars`
  yields), the character-boundary test `str::is_char_boundary`, and `str::trim`.
  Encoding and well-formedness follow section 3 of RFC 3629.
 */
module Utf8 {
  import opened Wrappers

  /** One byte of a UTF-8 string. */
  type Byte = b: int | 0 <= b < 0x100

  /** A Unicode scalar value: what a Rust `char` holds. */
  type CodePoint = c: int | IsScalar(c)

  /** A Unicode scalar value: below U+110000 and not a surrogate. */
  predicate IsScalar(v: int) {
    0 <= v < 0x11_0000 && !(0xD800 <= v < 0xE000)
  }

  /** A byte of the form 10xxxxxx, which never starts a character. */
  predicate IsContinuation(b: Byte) {
    0x80 <= b < 0xC0
  }

  /** The number of bytes a lead byte announces, 0 when `b` cannot start a character. */
  function LeadWidth(b: Byte): (w: nat)
    ensures w <= 4
    ensures w == 0 <==> IsContinuation(b) || 0xF8 <= b
  {
    if b < 0x80 then 1
    else if b < 0xC0 then 0
    else if b < 0xE0 then 2
    else if b < 0xF0 then 3
    else if b < 0xF8 then 4
    else 0
  }

  /** `char::len_utf8`: the length of the shortest encoding of `c`. */
  function LenUtf8(c: CodePoint): (n: nat)
    ensures 1 <= n <= 4
    ensures n == 1 <==> c < 0x80
  {
    if c < 0x80 then 1
    else if c < 0x800 then 2
    else if c < 0x1_0000 then 3
    else 4
  }

  /** `char::encode_utf8`: the lead byte carries the high bits, every further byte six more. */
  function EncodeChar(c: CodePoint): (bs: seq<Byte>)
    ensures |bs| == LenUtf8(c)
    ensures LeadWidth(bs[0]) == |bs|
    ensures forall j :: 1 <= j < |bs| ==> IsContinuation(bs[j])
  {
    assert IsScalar(c);
    var q1 := c / 64;
    var q2 := q1 / 64;
    var q3 := q2 / 64;
    if c < 0x80 then [c]
    else if c < 0x800 then [0xC0 + q1, 0x80 + c % 64]
    else if c < 0x1_0000 then [0xE0 + q2, 0x80 + q1 % 64, 0x80 + c % 64]
    else [0xF0 + q3, 0x80 + q2 % 64, 0x80 + q1 % 64, 0x80 + c % 64]
  }

  /** The number a lead byte and its continuation bytes spell, most significant bits first. */
  function CodeValue(bs: seq<Byte>): int
    requires 1 <= |bs| <= 4
  {
    var lead: int := bs[0];
    if |bs| == 1 then lead
    else if |bs| == 2 then (lead - 0xC0) * 64 + bs[1] % 64
    else if |bs| == 3 then ((lead - 0xE0) * 64 + bs[1] % 64) * 64 + bs[2] % 64
    else (((lead - 0xF0) * 64 + bs[1] % 64) * 64 + bs[2] % 64) * 64 + bs[3] % 64
  }

  /**
    Decodes `bs` as exactly one character. Overlong forms, surrogates and values
    above U+10FFFF are refused, as section 3 of RFC 3629 requires.
   */
  function DecodeChar(bs: seq<Byte>): (r: Option<CodePoint>)
    ensures r.Some? ==> |bs| == LenUtf8(r.value)
  {
    if |bs| == 0 || LeadWidth(bs[0]) != |bs| then None
    else if exists j :: 1 <= j < |bs| && !IsContinuation(bs[j]) then None
    else
      var v := CodeValue(bs);
      if IsScalar(v) && LenUtf8(v) == |bs| then Some(v) else None
  }

  /** Decodes a whole byte string; `None` when it is not well-formed UTF-8. */
  function Decode(s: seq<Byte>): (r: Option<seq<CodePoint>>)
    ensures r.Some? ==> (r.value == [] <==> s == [])
    decreases |s|
  {
    if s == [] then Some([])
    else
      var w := LeadWidth(s[0]);
      if w == 0 || |s| < w then None
      else match DecodeChar(s[..w])
        case None => None
        case Some(c) =>
          match Decode(s[w..])
          case None => None
          case Some(rest) => Some([c] + rest)
  }

  /** Well-formed UTF-8: the invariant every Rust `String` keeps. */
  predicate Valid(s: seq<Byte>) {
    Decode(s).Some?
  }

  /** The characters of a well-formed string, in order (`str::chars`). */
  function Chars(s: seq<Byte>): seq<CodePoint>
    requires Valid(s)
  {
    Decode(s).value
  }

  /** The bytes of a character sequence, one encoding after another. */
  function Encode(cs: seq<CodePoint>): seq<Byte> {
    if cs == [] then [] else EncodeChar(cs[0]) + Encode(cs[1..])
  }

  /** `str::is_char_boundary`: the start, the end, or a byte that is not a continuation byte. */
  predicate IsBoundary(s: seq<Byte>, i: nat) {
    i == 0 || i == |s| || (i < |s| && !IsContinuation(s[i]))
  }

  // ---------- one character ----------

  lemma DivMod64(q: int, r: int)
    requires 0 <= r < 64
    ensures (q * 64 + r) / 64 == q && (q * 64 + r) % 64 == r
  {
  }

  /** A continuation byte 10xxxxxx is 0x80 plus its low six bits. */
  lemma Low6(b: Byte)
    requires IsContinuation(b)
    ensures 0x80 + b % 64 == b
  {
  }

  /** Six low bits, put in a continuation byte, read back the same. */
  lemma Low6Back(r: int)
    requires 0 <= r < 64
    ensures (0x80 + r) % 64 == r
  {
  }

  /** Decoding the encoding of a character gives that character back. */
  lemma DecodeEncodeChar(c: CodePoint)
    ensures DecodeChar(EncodeChar(c)) == Some(c)
  {
    if c < 0x80 {
      assert EncodeChar(c) == [c];
    } else if c < 0x800 {
      DecodeEncodeChar2(c);
    } else if c < 0x1_0000 {
      DecodeEncodeChar3(c);
    } else {
      DecodeEncodeChar4(c);
    }
  }

  lemma DecodeEncodeChar2(c: CodePoint)
    requires 0x80 <= c < 0x800
    ensures DecodeChar(EncodeChar(c)) == Some(c)
  {
    var q1 := c / 64;
    assert c == q1 * 64 + c % 64;
    Low6Back(c % 64);
    var bs := [0xC0 + q1, 0x80 + c % 64];
    assert EncodeChar(c) == bs;
    assert !exists j :: 1 <= j < |bs| && !IsContinuation(bs[j]);
    assert CodeValue(bs) == c;
  }

  lemma DecodeEncodeChar3(c: CodePoint)
    requires 0x800 <= c < 0x1_0000
    ensures DecodeChar(EncodeChar(c)) == Some(c)
  {
    var q1 := c / 64;
    var q2 := q1 / 64;
    assert c == q1 * 64 + c % 64;
    assert q1 == q2 * 64 + q1 % 64;
    Low6Back(c % 64);
    Low6Back(q1 % 64);
    var bs := [0xE0 + q2, 0x80 + q1 % 64, 0x80 + c % 64];
    assert EncodeChar(c) == bs;
    assert !exists j :: 1 <= j < |bs| && !IsContinuation(bs[j]);
    assert CodeValue(bs) == c;
  }

  lemma DecodeEncodeChar4(c: CodePoint)
    requires 0x1_0000 <= c
    ensures DecodeChar(EncodeChar(c)) == Some(c)
  {
    var q1 := c / 64;
    var q2 := q1 / 64;
    var q3 := q2 / 64;
    assert c == q1 * 64 + c % 64;
    assert q1 == q2 * 64 + q1 % 64;
    assert q2 == q3 * 64 + q2 % 64;
    Low6Back(c % 64);
    Low6Back(q1 % 64);
    Low6Back(q2 % 64);
    var bs := [0xF0 + q3, 0x80 + q2 % 64, 0x80 + q1 % 64, 0x80 + c % 64];
    assert EncodeChar(c) == bs;
    assert !exists j :: 1 <= j < |bs| && !IsContinuation(bs[j]);
    assert CodeValue(bs) == c;
  }

  /** The decoder accepts only the one canonical encoding of each character. */
  lemma EncodeDecodeChar(bs: seq<Byte>)
    requires DecodeChar(bs).Some?
    ensures EncodeChar(DecodeChar(bs).value) == bs
  {
    assert forall j :: 1 <= j < |bs| ==> IsContinuation(bs[j]);
    if |bs| == 2 {
      EncodeDecodeChar2(bs);
    } else if |bs| == 3 {
      EncodeDecodeChar3(bs);
    } else if |bs| == 4 {
      EncodeDecodeChar4(bs);
    }
  }

  lemma EncodeDecodeChar2(bs: seq<Byte>)
    requires |bs| == 2 && IsContinuation(bs[1]) && 0xC0 <= bs[0] < 0xE0
    requires IsScalar(CodeValue(bs)) && LenUtf8(CodeValue(bs)) == 2
    ensures EncodeChar(CodeValue(bs)) == bs
  {
    var lead: int := bs[0];
    var b1 := bs[1] % 64;
    Low6(bs[1]);
    var c := (lead - 0xC0) * 64 + b1;
    DivMod64(lead - 0xC0, b1);
    assert EncodeChar(c) == [0xC0 + (lead - 0xC0), 0x80 + b1];
  }

  lemma EncodeDecodeChar3(bs: seq<Byte>)
    requires |bs| == 3 && IsContinuation(bs[1]) && IsContinuation(bs[2]) && 0xE0 <= bs[0] < 0xF0
    requires IsScalar(CodeValue(bs)) && LenUtf8(CodeValue(bs)) == 3
    ensures EncodeChar(CodeValue(bs)) == bs
  {
    var lead: int := bs[0];
    var b1, b2 := bs[1] % 64, bs[2] % 64;
    Low6(bs[1]);
    Low6(bs[2]);
    var x := (lead - 0xE0) * 64 + b1;
    var c := x * 64 + b2;
    DivMod64(x, b2);
    DivMod64(lead - 0xE0, b1);
    assert EncodeChar(c) == [0xE0 + (lead - 0xE0), 0x80 + b1, 0x80 + b2];
  }

  lemma EncodeDecodeChar4(bs: seq<Byte>)
    requires |bs| == 4 && IsContinuation(bs[1]) && IsContinuation(bs[2]) && IsContinuation(bs[3])
    requires 0xF0 <= bs[0] < 0xF8
    requires IsScalar(CodeValue(bs)) && LenUtf8(CodeValue(bs)) == 4
    ensures EncodeChar(CodeValue(bs)) == bs
  {
    var lead: int := bs[0];
    var b1, b2, b3 := bs[1] % 64, bs[2] % 64, bs[3] % 64;
    Low6(bs[1]);
    Low6(bs[2]);
    Low6(bs[3]);
    var y := (lead - 0xF0) * 64 + b1;
    var x := y * 64 + b2;
    var c := x * 64 + b3;
    DivMod64(x, b3);
    DivMod64(y, b2);
    DivMod64(lead - 0xF0, b1);
    assert EncodeChar(c) == [0xF0 + (lead - 0xF0), 0x80 + b1, 0x80 + b2, 0x80 + b3];
  }

  // ---------- whole strings ----------

  lemma {:induction false} EncodeAppend(a: seq<CodePoint>, b: seq<CodePoint>)
    ensures Encode(a + b) == Encode(a) + Encode(b)
  {
    if a == [] {
      assert a + b == b;
    } else {
      assert (a + b)[1..] == a[1..] + b;
      EncodeAppend(a[1..], b);
    }
  }

  /** Every character sequence encodes to well-formed UTF-8 that decodes back to it. */
  lemma {:induction false} DecodeEncode(cs: seq<CodePoint>)
    ensures Decode(Encode(cs)) == Some(cs)
  {
    if cs != [] {
      var e := EncodeChar(cs[0]);
      var s := Encode(cs);
      assert s == e + Encode(cs[1..]);
      assert s[0] == e[0] && LeadWidth(s[0]) == |e|;
      assert s[..|e|] == e;
      assert s[|e|..] == Encode(cs[1..]);
      DecodeEncodeChar(cs[0]);
      DecodeEncode(cs[1..]);
      assert [cs[0]] + cs[1..] == cs;
    }
  }

  /** A non-empty well-formed string is one decoded character followed by a well-formed rest. */
  lemma DecodeCons(s: seq<Byte>)
    requires Valid(s) && s != []
    ensures var w := LeadWidth(s[0]);
      && 1 <= w <= |s| && DecodeChar(s[..w]).Some? && Valid(s[w..])
      && Chars(s) == [DecodeChar(s[..w]).value] + Chars(s[w..])
  {
  }

  /** Every well-formed string is the encoding of its characters. */
  lemma {:induction false} EncodeDecode(s: seq<Byte>)
    requires Valid(s)
    ensures Encode(Chars(s)) == s
    decreases |s|
  {
    if s != [] {
      var w := LeadWidth(s[0]);
      DecodeCons(s);
      var c := DecodeChar(s[..w]).value;
      var rest := Chars(s[w..]);
      assert EncodeChar(c) == s[..w] by {
        EncodeDecodeChar(s[..w]);
      }
      assert Encode(rest) == s[w..] by {
        EncodeDecode(s[w..]);
      }
      assert Encode([c] + rest) == EncodeChar(c) + Encode(rest) by {
        assert ([c] + rest)[1..] == rest;
      }
      assert s == s[..w] + s[w..];
    }
  }

  /** The encoding of a single character is well formed and holds that one character. */
  lemma EncodeCharValid(c: CodePoint)
    ensures Valid(EncodeChar(c)) && Chars(EncodeChar(c)) == [c]
  {
    var e := EncodeChar(c);
    assert Encode([c]) == e by {
      assert [c][1..] == [];
      assert Encode([c]) == e + Encode([]) && e + [] == e;
    }
    DecodeEncode([c]);
  }

  /** Concatenating two well-formed strings concatenates their characters. */
  lemma ValidAppend(a: seq<Byte>, b: seq<Byte>)
    requires Valid(a) && Valid(b)
    ensures Valid(a + b) && Chars(a + b) == Chars(a) + Chars(b)
  {
    EncodeDecode(a);
    EncodeDecode(b);
    EncodeAppend(Chars(a), Chars(b));
    DecodeEncode(Chars(a) + Chars(b));
  }

  /** A well-formed string never starts with a continuation byte. */
  lemma ValidStartsWithLead(s: seq<Byte>)
    requires Valid(s) && s != []
    ensures !IsContinuation(s[0])
  {
  }

  /**
    The first character of a well-formed string: its bytes are the encoding of
    `Chars(s)[0]`, and what follows is well formed and holds the other characters.
   */
  lemma FirstChar(s: seq<Byte>)
    requires Valid(s) && s != []
    ensures LenUtf8(Chars(s)[0]) <= |s| && IsBoundary(s, LenUtf8(Chars(s)[0]))
    ensures s[..LenUtf8(Chars(s)[0])] == EncodeChar(Chars(s)[0])
    ensures Valid(s[LenUtf8(Chars(s)[0])..])
    ensures Chars(s[LenUtf8(Chars(s)[0])..]) == Chars(s)[1..]
  {
    var w := LeadWidth(s[0]);
    EncodeDecodeChar(s[..w]);
    if w < |s| {
      ValidStartsWithLead(s[w..]);
    }
  }

  /** Cutting at `i` is cutting at `w` and then cutting the rest at `i - w`. */
  lemma Slices(s: seq<Byte>, w: nat, i: nat)
    requires w <= i <= |s|
    ensures s[..i] == s[..w] + s[w..][..i - w] && s[i..] == s[w..][i - w..]
  {
  }

  /** Cutting at `o` and at a later `k`: the middle piece joins either side. */
  lemma Slices3(s: seq<Byte>, o: nat, k: nat)
    requires o <= k <= |s|
    ensures s[o..] == s[o..k] + s[k..] && s[..k] == s[..o] + s[o..k] && s[..o] + s[o..] == s
  {
  }

  /**
    Cutting a well-formed string at a character boundary leaves two well-formed
    strings whose characters, together, are the original's.
   */
  lemma {:induction false} SplitAtBoundary(s: seq<Byte>, i: nat)
    requires Valid(s) && IsBoundary(s, i)
    ensures i <= |s|
    ensures Valid(s[..i]) && Valid(s[i..])
    ensures Chars(s[..i]) + Chars(s[i..]) == Chars(s)
    decreases |s|
  {
    if i == 0 {
      assert s[..i] == [] && s[i..] == s;
    } else if i == |s| {
      assert s[..i] == s && s[i..] == [];
    } else {
      var w := HeadSplit(s, i);
      var head, t, j := s[..w], s[w..], i - w;
      SplitAtBoundary(t, j);
      Slices(s, w, i);
      ValidAppend(head, t[..j]);
      Assoc(Chars(head), Chars(t[..j]), Chars(t[j..]));
    }
  }

  /** Below a boundary `i` inside `s`, the first character ends at or before `i`. */
  lemma HeadSplit(s: seq<Byte>, i: nat) returns (w: nat)
    requires Valid(s) && IsBoundary(s, i) && 0 < i < |s|
    ensures w == LeadWidth(s[0]) && 1 <= w <= i
    ensures Valid(s[..w]) && Valid(s[w..]) && Chars(s) == Chars(s[..w]) + Chars(s[w..])
    ensures IsBoundary(s[w..], i - w)
  {
    w := LeadWidth(s[0]);
    var c := Chars(s)[0];
    FirstChar(s);
    EncodeCharValid(c);
    assert s[w..][i - w] == s[i];
  }

  /** Concatenation is associative. */
  lemma Assoc<T>(x: seq<T>, y: seq<T>, z: seq<T>)
    ensures (x + y) + z == x + (y + z)
  {
  }

  /**
    The last character of a well-formed string starts at a boundary, and no
    boundary lies strictly inside it.
   */
  lemma LastChar(p: seq<Byte>)
    requires Valid(p) && p != []
    ensures var cs := Chars(p); var o := |p| - LenUtf8(cs[|cs| - 1]);
      && 0 <= o < |p|
      && IsBoundary(p, o)
      && (forall j :: o < j < |p| ==> !IsBoundary(p, j))
      && p[o..] == EncodeChar(cs[|cs| - 1])
      && Valid(p[..o]) && Chars(p[..o]) == cs[..|cs| - 1]
  {
    var cs := Chars(p);
    var n := |cs|;
    var init := cs[..n - 1];
    var e := EncodeChar(cs[n - 1]);
    EncodeDecode(p);
    assert cs == init + [cs[n - 1]];
    EncodeAppend(init, [cs[n - 1]]);
    assert Encode([cs[n - 1]]) == e + Encode([]);
    assert p == Encode(init) + e;
    var o := |p| - |e|;
    assert p[..o] == Encode(init) && p[o..] == e;
    DecodeEncode(init);
    assert forall j :: o < j < |p| ==> IsContinuation(p[j]) by {
      forall j | o < j < |p| ensures IsContinuation(p[j]) {
        assert p[j] == e[j - o];
      }
    }
  }

  // ---------- str::trim ----------

  /**
    `char::is_whitespace`: the characters with the Unicode White_Space property
    (PropList.txt of the Unicode Character Database).
   */
  predicate IsWhitespace(c: CodePoint) {
    || (0x09 <= c <= 0x0D) || c == 0x20 || c == 0x85 || c == 0xA0 || c == 0x1680
    || (0x2000 <= c <= 0x200A) || c == 0x2028 || c == 0x2029 || c == 0x202F
    || c == 0x205F || c == 0x3000
  }

  /** Drops the leading whitespace characters. */
  function TrimStart(cs: seq<CodePoint>): (r: seq<CodePoint>)
    ensures |r| <= |cs| && r == cs[|cs| - |r|..]
    ensures forall i :: 0 <= i < |cs| - |r| ==> IsWhitespace(cs[i])
    ensures r != [] ==> !IsWhitespace(r[0])
  {
    if cs != [] && IsWhitespace(cs[0]) then TrimStart(cs[1..]) else cs
  }

  /** Drops the trailing whitespace characters. */
  function TrimEnd(cs: seq<CodePoint>): (r: seq<CodePoint>)
    ensures |r| <= |cs| && r == cs[..|r|]
    ensures forall i :: |r| <= i < |cs| ==> IsWhitespace(cs[i])
    ensures r != [] ==> !IsWhitespace(r[|r| - 1])
  {
    if cs != [] && IsWhitespace(cs[|cs| - 1]) then TrimEnd(cs[..|cs| - 1]) else cs
  }

  /** `str::trim`: the string without its leading and trailing whitespace. */
  function Trim(s: seq<Byte>): (r: seq<Byte>)
    requires Valid(s)
    ensures Valid(r)
  {
    DecodeEncode(TrimEnd(TrimStart(Chars(s))));
    Encode(TrimEnd(TrimStart(Chars(s))))
  }

  /** The first `n` elements after `a`. */
  lemma SubSlice<T>(s: seq<T>, a: nat, n: nat)
    requires a + n <= |s|
    ensures s[a..][..n] == s[a..a + n]
  {
  }

  /**
    A suffix `st` of `cs` after a whitespace prefix, and a prefix `t` of `st` before a
    whitespace suffix, is the run `cs[a..b]` between two whitespace stretches.
   */
  lemma TrimmedRun(cs: seq<CodePoint>, st: seq<CodePoint>, t: seq<CodePoint>) returns (a: nat, b: nat)
    requires |st| <= |cs| && st == cs[|cs| - |st|..]
    requires forall i :: 0 <= i < |cs| - |st| ==> IsWhitespace(cs[i])
    requires |t| <= |st| && t == st[..|t|]
    requires forall i :: |t| <= i < |st| ==> IsWhitespace(st[i])
    ensures t != [] ==> t[0] == st[0]
    ensures a <= b <= |cs| && t == cs[a..b]
    ensures forall i :: 0 <= i < a ==> IsWhitespace(cs[i])
    ensures forall i :: b <= i < |cs| ==> IsWhitespace(cs[i])
  {
    a := |cs| - |st|;
    b := a + |t|;
    SubSlice(cs, a, |t|);
    forall i | b <= i < |cs|
      ensures IsWhitespace(cs[i])
    {
      assert cs[i] == st[i - a];
    }
  }

  /** Cutting a sequence in two and joining the pieces gives it back. */
  lemma Cut<T>(s: seq<T>, i: nat)
    requires i <= |s|
    ensures s[..i] + s[i..] == s
  {
  }

  /**
    What `str::trim` keeps: the run `cs[a..b]` of the characters, after only
    whitespace and before only whitespace, which starts and ends with non-whitespace.
   */
  lemma TrimChars(s: seq<Byte>) returns (a: nat, b: nat)
    requires Valid(s)
    ensures var cs := Chars(s); var t := Chars(Trim(s));
      && a <= b <= |cs| && t == cs[a..b]
      && (forall i :: 0 <= i < a ==> IsWhitespace(cs[i]))
      && (forall i :: b <= i < |cs| ==> IsWhitespace(cs[i]))
      && (t != [] ==> !IsWhitespace(t[0]) && !IsWhitespace(t[|t| - 1]))
  {
    var cs := Chars(s);
    var t := Chars(Trim(s));
    assert t == TrimEnd(TrimStart(cs)) by {
      DecodeEncode(TrimEnd(TrimStart(cs)));
    }
    a, b := TrimmedRun(cs, TrimStart(cs), t);
  }

  /** The trimmed string is empty exactly when every character is whitespace. */
  lemma TrimEmpty(s: seq<Byte>)
    requires Valid(s)
    ensures Trim(s) == [] <==> forall c :: c in Chars(s) ==> IsWhitespace(c)
  {
    var cs := Chars(s);
    var st := TrimStart(cs);
    var t := TrimEnd(st);
    DecodeEncode(t);
    if t == [] {
      assert st == [];
      forall c | c in cs ensures IsWhitespace(c) {
        var i :| 0 <= i < |cs| && cs[i] == c;
      }
    } else {
      assert t[0] in cs by {
        assert t[0] == st[0] == cs[|cs| - |st|];
      }
    }
  }

  /** A string that starts and ends with a character that is not whitespace is its own trim. */
  lemma TrimKeeps(s: seq<Byte>)
    requires Valid(s) && Chars(s) != []
    requires !IsWhitespace(Chars(s)[0]) && !IsWhitespace(Chars(s)[|Chars(s)| - 1])
    ensures Trim(s) == s
  {
    EncodeDecode(s);
  }

  /** A string with a character that is not whitespace does not trim to nothing. */
  lemma TrimNonEmpty(s: seq<Byte>, c: CodePoint)
    requires Valid(s) && c in Chars(s) && !IsWhitespace(c)
    ensures Trim(s) != []
  {
    TrimEmpty(s);
  }
}
