/**
  `App` of src/main.rs as an object: its fields are updated in place by the key
  handler of the `run_tui` loop, by `maybe_open_overlay`, and through the text input
  that `current_input_mut` hands out. Every method is proved to leave the state that
  the value-level model `Form` prescribes, and to keep the form's invariant.
 */
module Tui {
  import opened Wrappers
  import Utf8
  import opened TextEdit
  import opened Input
  import Form
  import FormProperties

  /** An open overlay: which value it adds, and its own text input object. */
  datatype Overlay = Overlay(target: Form.OverlayTarget, input: TextInput)

  /** Applies an editing key to a text input, as both key handlers of `run_tui` do. */
  method Edit(t: TextInput, key: Form.Key)
    requires t.Valid()
    modifies t
    ensures t.Valid() && t.Model() == Form.EditKey(old(t.Model()), key)
  {
    match key
    case Left => t.MoveLeft();
    case Right => t.MoveRight();
    case Home => t.MoveHome();
    case End => t.MoveEnd();
    case Delete => t.Delete();
    case Backspace => t.Backspace();
    case Char(c) => t.InsertChar(c);
    case _ =>
  }

  /**
    The listing loop of `App::new`: every readable entry whose name is UTF-8, in
    listing order; the seven defaults when the directory is unreadable or gives none.
   */
  method LoadTypes(listing: Option<seq<Form.DirEntry>>) returns (names: seq<seq<Utf8.Byte>>)
    ensures names == Form.LoadTypes(listing)
  {
    names := [];
    if listing.Some? {
      var entries := listing.value;
      for i := 0 to |entries|
        invariant names == Form.ListedNames(entries[..i])
      {
        FormProperties.ListedNamesAppend(entries[..i], entries[i]);
        assert entries[..i + 1] == entries[..i] + [entries[i]];
        match entries[i]
        case Unreadable =>
        case Entry(name) =>
          if Utf8.Valid(name) {
            names := names + [name];
          }
      }
      assert entries[..|entries|] == entries;
    }
    if names == [] {
      names := Form.DefaultTypes;
    }
  }

  class App {
    var types: seq<seq<Utf8.Byte>>
    var typeIdx: nat
    var scope: TextInput
    var description: TextInput
    var body: TextInput
    var footer: TextInput
    var focus: Form.Focus
    var overlay: Option<Overlay>
    /** Every text input the form has created; it holds those in use (`Inputs()`). */
    ghost var Repr: set<TextInput>

    /** The text input objects the form owns. */
    ghost function Inputs(): set<TextInput>
      reads this
    {
      {scope, description, body, footer} + (if overlay.Some? then {overlay.value.input} else {})
    }

    /** The fields as a value of the model. */
    ghost function State(): Form.FormState
      reads this, Inputs()
    {
      Form.FormState(types, typeIdx, scope.Model(), description.Model(), body.Model(),
        footer.Model(), focus,
        if overlay.Some? then Some(Form.OverlayState(overlay.value.target, overlay.value.input.Model()))
        else None)
    }

    /** The text inputs are distinct objects in `Repr`, and the state keeps the form's invariant. */
    ghost predicate Valid()
      reads this, Repr
    {
      && scope in Repr && description in Repr && body in Repr && footer in Repr
      && (overlay.Some? ==> overlay.value.input in Repr)
      && scope != description && scope != body && scope != footer
      && description != body && description != footer && body != footer
      && (overlay.Some? ==> overlay.value.input !in {scope, description, body, footer})
      && Form.Invariant(State())
    }

    /**
      `App::new`: the names of a readable components directory, in listing order,
      or the seven defaults when none is usable; then empty fields, Type focused.
     */
    constructor (listing: Option<seq<Form.DirEntry>>)
      ensures State() == Form.Initial(listing)
      ensures Valid() && Repr == {scope, description, body, footer}
      ensures fresh(scope) && fresh(description) && fresh(body) && fresh(footer)
    {
      var names := LoadTypes(listing);
      FormProperties.InitialInvariant(listing);
      var s := new TextInput();
      var d := new TextInput();
      var b := new TextInput();
      var f := new TextInput();
      types, typeIdx := names, 0;
      scope, description, body, footer := s, d, b, f;
      focus, overlay := Form.Type, None;
      Repr := {s, d, b, f};
    }

    /** `current_input_mut`: the input of the focused text field, none with Type focused. */
    function CurrentInput(): (r: Option<TextInput>)
      reads this
      ensures r.None? <==> focus == Form.Type
      ensures r.Some? ==> r.value in {scope, description, body, footer}
    {
      match focus
      case Type => None
      case Scope => Some(scope)
      case Description => Some(description)
      case Body => Some(body)
      case Footer => Some(footer)
    }

    /** `current_input_mut` hands out the input whose contents the model calls focused. */
    lemma CurrentInputIsFocused()
      requires Valid()
      ensures CurrentInput().None? <==> Form.Focused(State()).None?
      ensures CurrentInput().Some? ==> Form.Focused(State()) == Some(CurrentInput().value.Model())
    {
    }

    /** `maybe_open_overlay`: an empty overlay for a new type from Type, a new scope from Scope. */
    method MaybeOpenOverlay()
      requires Valid() && overlay.None?
      modifies this
      ensures State() == Form.OpenOverlay(old(State())) && Valid()
      ensures fresh(Repr - old(Repr))
    {
      match focus {
        case Type =>
          var input := new TextInput();
          overlay := Some(Overlay(Form.NewType, input));
          Repr := Repr + {input};
        case Scope =>
          var input := new TextInput();
          overlay := Some(Overlay(Form.NewScope, input));
          Repr := Repr + {input};
        case _ =>
          overlay := None;
      }
    }

    /** The overlay closes; nothing else changes. */
    method CloseOverlay()
      requires Valid() && overlay.Some?
      modifies this
      ensures State() == old(State()).(overlay := None)
      ensures Valid() && Repr == old(Repr)
    {
      overlay := None;
    }

    /** The list gains `name`, which becomes the selected type; the overlay closes. */
    method AddType(name: seq<Utf8.Byte>)
      requires Valid() && overlay.Some? && Utf8.Valid(name)
      modifies this
      ensures State() == old(State()).(types := old(types) + [name], typeIdx := |old(types)|, overlay := None)
      ensures Valid() && Repr == old(Repr)
    {
      types := types + [name];
      typeIdx := |types| - 1;
      overlay := None;
    }

    /** The scope field becomes `name`, the focus moves on to Description; the overlay closes. */
    method SetScope(name: seq<Utf8.Byte>)
      requires Valid() && overlay.Some? && Utf8.Valid(name)
      modifies this
      ensures State() == old(State()).(scope := FromValue(name), focus := Form.Description, overlay := None)
      ensures Valid() && fresh(Repr - old(Repr))
    {
      scope := new TextInput.From(name);
      focus := Form.Description;
      overlay := None;
      Repr := Repr + {scope};
    }

    /** Enter in the overlay: persist and apply the trimmed name unless it is blank, then close. */
    method ConfirmOverlay(disk: Form.Disk) returns (outcome: Form.Outcome, disk': Form.Disk)
      requires Valid() && overlay.Some?
      modifies this
      ensures Form.Transition(State(), outcome, disk') ==
        Form.ConfirmOverlay(old(State()), old(State()).overlay.value, disk)
      ensures Valid()
      ensures fresh(Repr - old(Repr))
    {
      ghost var s0 := State();
      var ov := overlay.value;
      var name := Utf8.Trim(ov.input.value);
      ghost var t := Form.ConfirmOverlay(s0, s0.overlay.value, disk);
      assert s0.overlay.value == Form.OverlayState(ov.target, ov.input.Model());
      outcome, disk' := Form.Continue, disk;
      if name == [] {
        CloseOverlay();
        assert t == Form.Transition(s0.(overlay := None), Form.Continue, disk);
      } else if !Form.Saves(disk, ov.target, name) {
        outcome := Form.Failed;
        assert t == Form.Transition(s0, Form.Failed, disk);
      } else if ov.target == Form.NewType {
        disk' := Form.PersistType(disk, name);
        AddType(name);
        assert t == Form.Transition(s0.(types := s0.types + [name], typeIdx := |s0.types|, overlay := None),
                                    Form.Continue, disk');
      } else {
        disk' := Form.PersistScope(disk, name);
        SetScope(name);
        assert t == Form.Transition(s0.(scope := FromValue(name), focus := Form.Description, overlay := None),
                                    Form.Continue, disk');
      }
    }

    /** An editing key goes to the overlay's input; nothing else changes. */
    method EditOverlay(key: Form.Key)
      requires Valid() && overlay.Some?
      modifies overlay.value.input
      ensures var ov := old(State()).overlay.value;
        State() == old(State()).(overlay := Some(ov.(input := Form.EditKey(ov.input, key))))
      ensures Valid()
    {
      Edit(overlay.value.input, key);
    }

    /** A key while the overlay is open: Esc closes it, Enter confirms it, the rest edit its input. */
    method OverlayKey(key: Form.Key, disk: Form.Disk) returns (outcome: Form.Outcome, disk': Form.Disk)
      requires Valid() && overlay.Some?
      modifies this, overlay.value.input
      ensures Form.Transition(State(), outcome, disk') ==
        Form.OverlayKey(old(State()), old(State()).overlay.value, key, disk)
      ensures Valid()
      ensures fresh(Repr - old(Repr))
    {
      match key
      case Esc =>
        CloseOverlay();
        outcome, disk' := Form.Continue, disk;
      case Enter =>
        outcome, disk' := ConfirmOverlay(disk);
      case _ =>
        EditOverlay(key);
        outcome, disk' := Form.Continue, disk;
    }

    /** Edits the focused text field, if any, with an editing key. */
    method EditFocused(key: Form.Key)
      requires Valid() && overlay.None?
      modifies scope, description, body, footer
      ensures State() == Form.EditFocused(old(State()), key)
      ensures Valid()
    {
      var t := CurrentInput();
      if t.Some? {
        CurrentInputIsFocused();
        Edit(t.value, key);
      }
    }

    /**
      `App::commit_message`: the prefix line, then the body and the footer, each
      after a blank line when not empty, built from the fields.
     */
    method CommitMessage() returns (msg: seq<Utf8.Byte>)
      requires Valid()
      ensures msg == Form.CommitMessage(State())
    {
      msg := Form.Prefix(types[typeIdx], scope.value, description.value);
      if body.value != [] {
        msg := msg + Form.BlankLine + body.value;
      }
      if footer.value != [] {
        msg := msg + Form.BlankLine + footer.value;
      }
    }

    /** Tab moves the focus on to the next field, from Footer back to Type. */
    method NextField()
      requires Valid() && overlay.None?
      modifies this
      ensures State() == Form.FormKey(old(State()), Form.Tab) && Valid()
      ensures Repr == old(Repr)
    {
      ghost var s0 := State();
      FormProperties.TabKey(s0);
      focus := Form.NextFocus(focus);
      assert State() == s0.(focus := focus);
    }

    /** Up selects the previous type while Type is focused, and stops at the first. */
    method SelectPrevious()
      requires Valid() && overlay.None?
      modifies this
      ensures State() == Form.FormKey(old(State()), Form.Up) && Valid()
      ensures Repr == old(Repr)
    {
      ghost var s0 := State();
      FormProperties.UpKey(s0);
      if focus == Form.Type && typeIdx > 0 {
        typeIdx := typeIdx - 1;
        assert State() == s0.(typeIdx := typeIdx);
      }
    }

    /** Down selects the next type while Type is focused, and stops at the last. */
    method SelectNext()
      requires Valid() && overlay.None?
      modifies this
      ensures State() == Form.FormKey(old(State()), Form.Down) && Valid()
      ensures Repr == old(Repr)
    {
      ghost var s0 := State();
      FormProperties.DownKey(s0);
      if focus == Form.Type && typeIdx + 1 < |types| {
        typeIdx := typeIdx + 1;
        assert State() == s0.(typeIdx := typeIdx);
      }
    }

    /** A key with no overlay open: Tab, the type selector, editing, and `+`. */
    method FormKey(key: Form.Key)
      requires Valid() && overlay.None?
      modifies this, scope, description, body, footer
      ensures State() == Form.FormKey(old(State()), key) && Valid()
      ensures fresh(Repr - old(Repr))
    {
      ghost var s0 := State();
      match key
      case Tab =>
        NextField();
      case Up =>
        SelectPrevious();
      case Down =>
        SelectNext();
      case Char(c) =>
        if c == Form.Plus {
          assert Form.FormKey(s0, key) == Form.OpenOverlay(s0);
          MaybeOpenOverlay();
        } else {
          assert Form.FormKey(s0, key) == Form.EditFocused(s0, key);
          EditFocused(key);
        }
      case Enter | Esc | Other =>
        assert Form.FormKey(s0, key) == s0;
      case _ =>
        assert Form.FormKey(s0, key) == Form.EditFocused(s0, key);
        EditFocused(key);
    }

    /**
      One key event of the `run_tui` loop: with an overlay open the key goes to the
      overlay, otherwise to the form; Enter or Esc with no overlay finishes the loop,
      and a failed write ends it with an error.
     */
    method Step(key: Form.Key, disk: Form.Disk) returns (outcome: Form.Outcome, disk': Form.Disk)
      requires Valid()
      modifies this, Repr
      ensures Form.Transition(State(), outcome, disk') == Form.Step(old(State()), key, disk)
      ensures Valid()
      ensures fresh(Repr - old(Repr))
    {
      if overlay.Some? {
        outcome, disk' := OverlayKey(key, disk);
      } else {
        FormKey(key);
        outcome := if key == Form.Enter || key == Form.Esc then Form.Finish else Form.Continue;
        disk' := disk;
      }
    }
  
    /** One turn of the loop: the first `i` events are handled, and the loop went on. */
    method RunOnce(ghost start: Form.FormState, keys: seq<Form.Key>, i: nat, ghost disk0: Form.Disk,
                   disk: Form.Disk) returns (outcome: Form.Outcome, disk': Form.Disk)
      requires Valid() && Form.Invariant(start) && i < |keys|
      requires Form.Run(start, keys[..i], disk0) == Form.Transition(State(), Form.Continue, disk)
      modifies this, Repr
      ensures Form.Run(start, keys[..i + 1], disk0) == Form.Transition(State(), outcome, disk')
      ensures Valid() && fresh(Repr - old(Repr))
    {
      FormProperties.RunSnoc(start, keys, i, disk0);
      outcome, disk' := Step(keys[i], disk);
    }

    /**
      The loop of `run_tui` fed the key events `keys`: it handles them in order
      until one finishes the form or a write fails, or the events run out.
     */
    method Run(keys: seq<Form.Key>, disk: Form.Disk) returns (outcome: Form.Outcome, disk': Form.Disk)
      requires Valid()
      modifies this, Repr
      ensures Form.Transition(State(), outcome, disk') == Form.Run(old(State()), keys, disk)
      ensures Valid()
      ensures fresh(Repr - old(Repr))
    {
      ghost var start := State();
      outcome, disk' := Form.Continue, disk;
      var i := 0;
      while i < |keys| && outcome == Form.Continue
        invariant i <= |keys|
        invariant Valid() && fresh(Repr - old(Repr))
        invariant Form.Run(start, keys[..i], disk) == Form.Transition(State(), outcome, disk')
      {
        outcome, disk' := RunOnce(start, keys, i, disk, disk');
        i := i + 1;
      }
      FormProperties.RunEnded(start, keys, i, disk);
    }
  }
}
