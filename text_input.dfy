/**
  `TextInput` (src/main.rs): the editable string with a byte cursor, as an object
  whose methods update `value` and `cursor` in place. Each method is proved to
  leave exactly the buffer that the matching function of `TextEdit` describes, and
  to keep the invariant: well-formed UTF-8 with the cursor on a character boundary.
 */
module Input {
  import Utf8
  import opened TextEdit

  class TextInput {
    var value: seq<Utf8.Byte>
    var cursor: nat

    /** The pair of fields as a value. */
    function Model(): Buffer
      reads this
    {
      Buffer(value, cursor)
    }

    ghost predicate Valid()
      reads this
    {
      Wf(Model())
    }

    /** `TextInput::new`. */
    constructor ()
      ensures Valid() && Model() == Empty()
    {
      value := [];
      cursor := 0;
    }

    /** `TextInput::from`: the cursor goes to the end of `s`. */
    constructor From(s: seq<Utf8.Byte>)
      requires Utf8.Valid(s)
      ensures Valid() && Model() == FromValue(s)
    {
      value := s;
      cursor := |s|;
    }

    method InsertChar(c: Utf8.CodePoint)
      requires Valid()
      modifies this
      ensures Valid() && Model() == Inserted(old(Model()), c)
    {
      InsertedView(Model(), c);
      value := value[..cursor] + Utf8.EncodeChar(c) + value[cursor..];
      cursor := cursor + Utf8.LenUtf8(c);
    }

    method Backspace()
      requires Valid()
      modifies this
      ensures Valid() && Model() == Backspaced(old(Model()))
    {
      BackspacedView(Model());
      if cursor == 0 {
        return;
      }
      var idx: nat := cursor - 1;
      while !Utf8.IsBoundary(value, idx)
        invariant idx < cursor
        invariant forall j :: idx < j < cursor ==> !Utf8.IsBoundary(value, j)
        decreases idx
      {
        idx := idx - 1;
      }
      assert idx == PrevBoundary(value, cursor);
      value := value[..idx] + value[cursor..];
      cursor := idx;
    }

    method Delete()
      requires Valid()
      modifies this
      ensures Valid() && Model() == Deleted(old(Model()))
    {
      ghost var b := Model();
      DeletedView(b);
      if cursor >= |value| {
        return;
      }
      DeletedJoins(b);
      var after := value[cursor..];
      value := value[..cursor] + after[NextCharLen(after)..];
    }

    method MoveLeft()
      requires Valid()
      modifies this
      ensures Valid() && Model() == MovedLeft(old(Model()))
    {
      MovedLeftView(Model());
      if cursor == 0 {
        return;
      }
      var idx: nat := cursor - 1;
      while !Utf8.IsBoundary(value, idx)
        invariant idx < cursor
        invariant forall j :: idx < j < cursor ==> !Utf8.IsBoundary(value, j)
        decreases idx
      {
        idx := idx - 1;
      }
      assert idx == PrevBoundary(value, cursor);
      cursor := idx;
    }

    method MoveRight()
      requires Valid()
      modifies this
      ensures Valid() && Model() == MovedRight(old(Model()))
    {
      MovedRightView(Model());
      if cursor >= |value| {
        return;
      }
      Utf8.SplitAtBoundary(value, cursor);
      var next := cursor + NextCharLen(value[cursor..]);
      cursor := next;
    }

    method MoveHome()
      requires Valid()
      modifies this
      ensures Valid() && Model() == MovedHome(old(Model()))
    {
      MovedHomeView(Model());
      cursor := 0;
    }

    method MoveEnd()
      requires Valid()
      modifies this
      ensures Valid() && Model() == MovedEnd(old(Model()))
    {
      MovedEndView(Model());
      cursor := |value|;
    }
  }
}
