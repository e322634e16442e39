/**
  The value semantics of `TextInput` (src/main.rs): an editable UTF-8 string with a
  cursor that is a byte offset. `Buffer` is the pair of fields; the functions below
  say what each editing operation turns it into, byte for byte.

  Independently of the bytes, a well-formed buffer is a pair of character
  sequences, the characters before the cursor and those after it (`View`). The
  lemmas of this module prove that every byte-level operation is the expected
  character-level edit of that pair and keeps the cursor on a character boundary.
 */
module TextEdit {
  import opened Utf8

  /** `TextInput { value, cursor }`. */
  datatype Buffer = Buffer(value: seq<Byte>, cursor: nat)

  /** The invariant of `TextInput`: well-formed UTF-8 with the cursor on a character boundary. */
  predicate Wf(b: Buffer) {
    Valid(b.value) && b.cursor <= |b.value| && IsBoundary(b.value, b.cursor)
  }

  /** The characters before and after the cursor. */
  datatype Zipper = Zipper(before: seq<CodePoint>, after: seq<CodePoint>)

  ghost function View(b: Buffer): (z: Zipper)
    requires Wf(b)
    ensures z.before + z.after == Chars(b.value)
  {
    SplitAtBoundary(b.value, b.cursor);
    Zipper(Chars(b.value[..b.cursor]), Chars(b.value[b.cursor..]))
  }

  /** `TextInput::new`. */
  function Empty(): (b: Buffer)
    ensures Wf(b) && View(b) == Zipper([], [])
  {
    Buffer([], 0)
  }

  /** `TextInput::from`: the given string with the cursor at its end. */
  function FromValue(s: seq<Byte>): (b: Buffer)
    requires Valid(s)
    ensures Wf(b) && View(b) == Zipper(Chars(s), [])
  {
    assert s[..|s|] == s && s[|s|..] == [];
    Buffer(s, |s|)
  }

  /**
    The backward scan of `backspace` and `move_left`: starting one byte below `i`,
    step down until `is_char_boundary` holds. The result is the nearest boundary
    below `i`.
   */
  function PrevBoundary(s: seq<Byte>, i: nat): (r: nat)
    requires 0 < i <= |s|
    ensures r < i && IsBoundary(s, r)
    ensures forall j :: r < j < i ==> !IsBoundary(s, j)
    decreases i
  {
    if IsBoundary(s, i - 1) then i - 1 else PrevBoundary(s, i - 1)
  }

  /** The byte length of the first character of `s` (`s.chars().next().unwrap().len_utf8()`). */
  function NextCharLen(s: seq<Byte>): (n: nat)
    requires Valid(s) && s != []
    ensures 1 <= n <= |s| && IsBoundary(s, n)
  {
    FirstChar(s);
    LenUtf8(Chars(s)[0])
  }

  /** The first character of `s` takes `NextCharLen(s)` bytes; the rest is well-formed. */
  lemma NextCharSplit(s: seq<Byte>)
    requires Valid(s) && s != []
    ensures var w := NextCharLen(s);
      && s[..w] == EncodeChar(Chars(s)[0])
      && Valid(s[w..]) && Chars(s[w..]) == Chars(s)[1..]
  {
    FirstChar(s);
  }

  /**
    Stepping over the character that starts at a boundary `k`: the bytes up to the
    far end hold one character more, those after it one character less.
   */
  lemma StepOver(v: seq<Byte>, k: nat)
    requires k < |v| && Valid(v[..k]) && Valid(v[k..])
    ensures var w := NextCharLen(v[k..]); var cs := Chars(v[k..]);
      && k + w <= |v| && cs != []
      && Valid(v[..k + w]) && Chars(v[..k + w]) == Chars(v[..k]) + [cs[0]]
      && Valid(v[k + w..]) && Chars(v[k + w..]) == cs[1..]
  {
    var q := v[k..];
    NextCharSplit(q);
    var w := NextCharLen(q);
    var c := Chars(q)[0];
    Slices(v, k, k + w);
    EncodeCharValid(c);
    ValidAppend(v[..k], EncodeChar(c));
  }

  // ---------- the operations of TextInput ----------

  /** `insert_char`: the encoding of `c` goes in at the cursor, which moves past it. */
  function Inserted(b: Buffer, c: CodePoint): (r: Buffer)
    requires IsBoundary(b.value, b.cursor)
    ensures r.cursor == b.cursor + LenUtf8(c) && |r.value| == |b.value| + LenUtf8(c)
    ensures r.value[..b.cursor] == b.value[..b.cursor]
    ensures r.value[b.cursor..r.cursor] == EncodeChar(c)
    ensures r.value[r.cursor..] == b.value[b.cursor..]
  {
    var v := b.value;
    Buffer(v[..b.cursor] + EncodeChar(c) + v[b.cursor..], b.cursor + LenUtf8(c))
  }

  /** `backspace`: removes the bytes from the previous boundary up to the cursor. */
  function Backspaced(b: Buffer): (r: Buffer)
    requires IsBoundary(b.value, b.cursor)
    ensures b.cursor == 0 ==> r == b
    ensures b.cursor > 0 ==>
      && r.cursor < b.cursor && IsBoundary(b.value, r.cursor)
      && (forall j :: r.cursor < j < b.cursor ==> !IsBoundary(b.value, j))
      && r.value == b.value[..r.cursor] + b.value[b.cursor..]
  {
    if b.cursor == 0 then b
    else
      var v := b.value;
      var idx := PrevBoundary(v, b.cursor);
      Buffer(v[..idx] + v[b.cursor..], idx)
  }

  /** `delete`: removes the one character that starts at the cursor. */
  function Deleted(b: Buffer): (r: Buffer)
    requires Wf(b)
    ensures b.cursor >= |b.value| ==> r == b
    ensures b.cursor < |b.value| ==> r.cursor == b.cursor && |r.value| < |b.value|
  {
    if b.cursor >= |b.value| then b
    else
      var v := b.value;
      SplitAtBoundary(v, b.cursor);
      var next := b.cursor + NextCharLen(v[b.cursor..]);
      Buffer(v[..b.cursor] + v[next..], b.cursor)
  }

  /** `move_left`: the cursor steps back to the previous boundary. */
  function MovedLeft(b: Buffer): (r: Buffer)
    requires IsBoundary(b.value, b.cursor)
    ensures r.value == b.value
    ensures b.cursor == 0 ==> r == b
    ensures b.cursor > 0 ==>
      && r.cursor < b.cursor && IsBoundary(b.value, r.cursor)
      && (forall j :: r.cursor < j < b.cursor ==> !IsBoundary(b.value, j))
  {
    if b.cursor == 0 then b else Buffer(b.value, PrevBoundary(b.value, b.cursor))
  }

  /** `move_right`: the cursor steps over the character that starts at it. */
  function MovedRight(b: Buffer): (r: Buffer)
    requires Wf(b)
    ensures r.value == b.value
    ensures b.cursor >= |b.value| ==> r == b
    ensures b.cursor < |b.value| ==> b.cursor < r.cursor <= |b.value| && IsBoundary(b.value, r.cursor)
  {
    if b.cursor >= |b.value| then b
    else
      SplitAtBoundary(b.value, b.cursor);
      var next := b.cursor + NextCharLen(b.value[b.cursor..]);
      assert b.value[b.cursor..][next - b.cursor..] == b.value[next..];
      Buffer(b.value, next)
  }

  /** `move_home`. */
  function MovedHome(b: Buffer): (r: Buffer)
    ensures r.value == b.value && r.cursor == 0 && IsBoundary(r.value, r.cursor)
  {
    Buffer(b.value, 0)
  }

  /** `move_end`. */
  function MovedEnd(b: Buffer): (r: Buffer)
    ensures r.value == b.value && r.cursor == |b.value| && IsBoundary(r.value, r.cursor)
  {
    Buffer(b.value, |b.value|)
  }

  // ---------- the character-level meaning of each operation ----------

  /** Two well-formed strings with the cursor between them make a well-formed buffer. */
  lemma JoinView(a: seq<Byte>, c: seq<Byte>)
    requires Valid(a) && Valid(c)
    ensures Wf(Buffer(a + c, |a|))
    ensures View(Buffer(a + c, |a|)) == Zipper(Chars(a), Chars(c))
  {
    ValidAppend(a, c);
    if a != [] && c != [] {
      ValidStartsWithLead(c);
      assert (a + c)[|a|] == c[0];
    }
    assert (a + c)[..|a|] == a && (a + c)[|a|..] == c;
  }

  /** Below a cursor that is not at 0, the scan stops at the start of the last character before it. */
  lemma PrevBoundaryIsLastChar(v: seq<Byte>, k: nat)
    requires 0 < k <= |v| && Valid(v[..k])
    ensures var cs := Chars(v[..k]); var o := PrevBoundary(v, k);
      && cs != []
      && o == k - LenUtf8(cs[|cs| - 1])
      && v[o..k] == EncodeChar(cs[|cs| - 1])
      && Valid(v[..o]) && Chars(v[..o]) == cs[..|cs| - 1]
  {
    var p := v[..k];
    LastChar(p);
    var cs := Chars(p);
    var o := k - LenUtf8(cs[|cs| - 1]);
    var r := PrevBoundary(v, k);
    assert forall j: nat :: j < k ==> (IsBoundary(p, j) <==> IsBoundary(v, j));
    assert r == o;
    assert p[..o] == v[..o] && p[o..] == v[o..k];
  }

  /** `insert_char` adds `c` just before the cursor, in characters. */
  lemma InsertedView(b: Buffer, c: CodePoint)
    requires Wf(b)
    ensures Wf(Inserted(b, c))
    ensures View(Inserted(b, c)) == Zipper(View(b).before + [c], View(b).after)
  {
    var v, k := b.value, b.cursor;
    SplitAtBoundary(v, k);
    EncodeCharValid(c);
    var a := v[..k] + EncodeChar(c);
    ValidAppend(v[..k], EncodeChar(c));
    JoinView(a, v[k..]);
    assert Inserted(b, c) == Buffer(a + v[k..], |a|);
  }

  /** `backspace` removes the character just before the cursor, if there is one. */
  lemma BackspacedView(b: Buffer)
    requires Wf(b)
    ensures Wf(Backspaced(b))
    ensures var z := View(b);
      View(Backspaced(b)) ==
        if z.before == [] then z else Zipper(z.before[..|z.before| - 1], z.after)
  {
    var v, k := b.value, b.cursor;
    SplitAtBoundary(v, k);
    if k > 0 {
      PrevBoundaryIsLastChar(v, k);
      var o := PrevBoundary(v, k);
      JoinView(v[..o], v[k..]);
    } else {
      assert v[..k] == [];
    }
  }

  /** `delete` removes the character just after the cursor, if there is one. */
  lemma DeletedView(b: Buffer)
    requires Wf(b)
    ensures Wf(Deleted(b))
    ensures var z := View(b);
      View(Deleted(b)) == if z.after == [] then z else Zipper(z.before, z.after[1..])
  {
    var v, k := b.value, b.cursor;
    SplitAtBoundary(v, k);
    if k < |v| {
      DeletedNext(b);
    } else {
      assert v[k..] == [];
    }
  }

  /** With a character after the cursor, `delete` joins what lies before it to what lies after it. */
  lemma DeletedNext(b: Buffer)
    requires Wf(b) && b.cursor < |b.value|
    ensures Wf(Deleted(b)) && View(b).after != []
    ensures View(Deleted(b)) == Zipper(View(b).before, View(b).after[1..])
  {
    DeletedJoins(b);
    DropFirstView(b.value[..b.cursor], b.value[b.cursor..]);
  }

  /** `delete` joins the bytes before the cursor to those after the next character. */
  lemma DeletedJoins(b: Buffer)
    requires Wf(b) && b.cursor < |b.value|
    ensures Valid(b.value[..b.cursor]) && Valid(b.value[b.cursor..]) && b.value[b.cursor..] != []
    ensures var a, q := b.value[..b.cursor], b.value[b.cursor..];
      Deleted(b) == Buffer(a + q[NextCharLen(q)..], |a|)
  {
    var v, k := b.value, b.cursor;
    SplitAtBoundary(v, k);
    var w := NextCharLen(v[k..]);
    assert Deleted(b) == Buffer(v[..k] + v[k + w..], k);
    assert v[k + w..] == v[k..][w..] && |v[..k]| == k;
  }

  /** Dropping the first character of what follows the cursor. */
  lemma DropFirstView(a: seq<Byte>, q: seq<Byte>)
    requires Valid(a) && Valid(q) && q != []
    ensures Chars(q) != []
    ensures var c := q[NextCharLen(q)..];
      Wf(Buffer(a + c, |a|)) && View(Buffer(a + c, |a|)) == Zipper(Chars(a), Chars(q)[1..])
  {
    NextCharSplit(q);
    JoinView(a, q[NextCharLen(q)..]);
  }

  /** `move_left` moves the last character before the cursor to after it. */
  lemma MovedLeftView(b: Buffer)
    requires Wf(b)
    ensures Wf(MovedLeft(b))
    ensures var z := View(b);
      View(MovedLeft(b)) ==
        if z.before == [] then z
        else Zipper(z.before[..|z.before| - 1], [z.before[|z.before| - 1]] + z.after)
  {
    var v, k := b.value, b.cursor;
    SplitAtBoundary(v, k);
    if k > 0 {
      PrevBoundaryIsLastChar(v, k);
      var cs := Chars(v[..k]);
      var last := cs[|cs| - 1];
      var o := PrevBoundary(v, k);
      Slices3(v, o, k);
      assert Valid(v[o..]) && Chars(v[o..]) == [last] + Chars(v[k..]) by {
        EncodeCharValid(last);
        ValidAppend(EncodeChar(last), v[k..]);
      }
      JoinView(v[..o], v[o..]);
    }
  }

  /** `move_right` moves the first character after the cursor to before it. */
  lemma MovedRightView(b: Buffer)
    requires Wf(b)
    ensures Wf(MovedRight(b))
    ensures var z := View(b);
      View(MovedRight(b)) ==
        if z.after == [] then z else Zipper(z.before + [z.after[0]], z.after[1..])
  {
    var v, k := b.value, b.cursor;
    SplitAtBoundary(v, k);
    if k < |v| {
      MovedRightNext(b);
    } else {
      assert v[k..] == [];
    }
  }

  /** With a character after the cursor, `move_right` moves the cursor past its bytes. */
  lemma MovedRightNext(b: Buffer)
    requires Wf(b) && b.cursor < |b.value|
    ensures Wf(MovedRight(b)) && View(b).after != []
    ensures View(MovedRight(b)) == Zipper(View(b).before + [View(b).after[0]], View(b).after[1..])
  {
    var v, k := b.value, b.cursor;
    SplitAtBoundary(v, k);
    assert View(b) == Zipper(Chars(v[..k]), Chars(v[k..]));
    StepOver(v, k);
    var w := NextCharLen(v[k..]);
    var p, c := v[..k + w], v[k + w..];
    assert MovedRight(b) == Buffer(p + c, |p|) by {
      Cut(v, k + w);
    }
    JoinView(p, c);
  }

  /** `move_home` puts every character after the cursor. */
  lemma MovedHomeView(b: Buffer)
    requires Wf(b)
    ensures Wf(MovedHome(b))
    ensures View(MovedHome(b)) == Zipper([], View(b).before + View(b).after)
  {
    JoinView([], b.value);
    assert [] + b.value == b.value;
  }

  /** `move_end` puts every character before the cursor. */
  lemma MovedEndView(b: Buffer)
    requires Wf(b)
    ensures Wf(MovedEnd(b))
    ensures View(MovedEnd(b)) == Zipper(View(b).before + View(b).after, [])
  {
    JoinView(b.value, []);
    assert b.value + [] == b.value;
  }

  /** `insert_char(c)` then `backspace()` gives back the buffer, for a character of any width. */
  lemma InsertThenBackspace(b: Buffer, c: CodePoint)
    requires Wf(b)
    ensures Backspaced(Inserted(b, c)) == b
  {
    var v, k := b.value, b.cursor;
    var r := Inserted(b, c);
    var w, n := r.value, r.cursor;
    assert w[k..n] == EncodeChar(c);
    assert IsBoundary(w, k) by {
      if 0 < k {
        assert w[k] == w[k..n][0];
      }
    }
    forall j | k < j < n ensures !IsBoundary(w, j) {
      assert w[j] == w[k..n][j - k];
    }
    assert PrevBoundary(w, n) == k;
    assert Backspaced(r) == Buffer(w[..k] + w[n..], k);
    assert v[..k] + v[k..] == v;
  }
}
