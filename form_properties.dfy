/**
  What the form promises, proved about the transition function `Form.Step`, the
  list `Form.LoadTypes` and the message `Form.CommitMessage`.
 */
module FormProperties {
  import opened Wrappers
  import opened Utf8
  import opened TextEdit
  import opened Form

  // ---------- the invariant ----------

  /** Bytes below 0x80 are each a character of their own. */
  lemma {:induction false} AsciiValid(bs: seq<Byte>)
    requires forall i :: 0 <= i < |bs| ==> bs[i] < 0x80
    ensures Valid(bs) && Chars(bs) == bs
  {
    if bs != [] {
      AsciiValid(bs[1..]);
      assert bs[..1] == [bs[0]];
      assert DecodeChar(bs[..1]) == Some(bs[0]);
    }
  }

  lemma {:induction false} ListedNamesValid(entries: seq<DirEntry>)
    ensures forall t :: t in ListedNames(entries) ==> Valid(t)
  {
    if entries != [] {
      ListedNamesValid(entries[..|entries| - 1]);
    }
  }

  /** The state `App::new` builds keeps the invariant: index 0 of a non-empty list of UTF-8 names. */
  lemma InitialInvariant(listing: Option<seq<DirEntry>>)
    ensures Invariant(Initial(listing))
  {
    forall t | t in DefaultTypes ensures Valid(t) {
      AsciiValid(t);
    }
    if listing.Some? {
      ListedNamesValid(listing.value);
    }
  }

  /**
    Running two sequences of key events one after the other is running their
    concatenation: the second starts from where the first left the form, unless
    the first already ended the loop.
   */
  lemma {:induction false} RunAppend(s: FormState, keys: seq<Key>, more: seq<Key>, disk: Disk)
    requires Invariant(s)
    ensures var r := Run(s, keys, disk);
      Run(s, keys + more, disk) == if r.outcome == Continue then Run(r.state, more, r.disk) else r
    decreases |keys|
  {
    if keys != [] {
      assert (keys + more)[0] == keys[0] && (keys + more)[1..] == keys[1..] + more;
      var t := Step(s, keys[0], disk);
      if t.outcome == Continue {
        RunAppend(t.state, keys[1..], more, t.disk);
      }
    } else {
      assert keys + more == more;
    }
  }

  /** A single key event runs as one step. */
  lemma RunOne(s: FormState, key: Key, disk: Disk)
    requires Invariant(s)
    ensures Run(s, [key], disk) == Step(s, key, disk)
  {
    assert [key][1..] == [];
  }

  /** One more key event after a run that goes on is one more step. */
  lemma RunSnoc(s: FormState, keys: seq<Key>, i: nat, disk: Disk)
    requires Invariant(s) && i < |keys| && Run(s, keys[..i], disk).outcome == Continue
    ensures var r := Run(s, keys[..i], disk);
      Run(s, keys[..i + 1], disk) == Step(r.state, keys[i], r.disk)
  {
    var r := Run(s, keys[..i], disk);
    RunAppend(s, keys[..i], [keys[i]], disk);
    RunOne(r.state, keys[i], r.disk);
    assert keys[..i + 1] == keys[..i] + [keys[i]];
  }

  /** Once the loop has ended, or the events have run out, the rest changes nothing. */
  lemma RunEnded(s: FormState, keys: seq<Key>, i: nat, disk: Disk)
    requires Invariant(s) && i <= |keys|
    requires i == |keys| || Run(s, keys[..i], disk).outcome != Continue
    ensures Run(s, keys, disk) == Run(s, keys[..i], disk)
  {
    if i < |keys| {
      Cut(keys, i);
      RunAppend(s, keys[..i], keys[i..], disk);
    } else {
      assert keys[..i] == keys;
    }
  }

  /** A first event that does not let the loop go on is where the run ends. */
  lemma RunStops(s: FormState, keys: seq<Key>, disk: Disk)
    requires Invariant(s) && keys != [] && Step(s, keys[0], disk).outcome != Continue
    ensures Run(s, keys, disk) == Step(s, keys[0], disk)
  {
  }

  // One arm of `FormKey` each, as rewrite rules: the methods of `Tui.App` use them so
  // that their proofs need not unfold the whole match.

  /** Enter and Esc leave the form as it is. */
  lemma FinishKeysIdle(s: FormState, key: Key)
    requires Invariant(s) && (key == Enter || key == Esc)
    ensures FormKey(s, key) == s
  {
  }

  /** Tab moves the focus to the next field and changes nothing else. */
  lemma TabKey(s: FormState)
    requires Invariant(s)
    ensures FormKey(s, Tab) == s.(focus := NextFocus(s.focus))
  {
  }

  /** Up selects the previous type when the type selector has the focus and one precedes. */
  lemma UpKey(s: FormState)
    requires Invariant(s)
    ensures FormKey(s, Up) ==
      if s.focus == Type && s.typeIdx > 0 then s.(typeIdx := s.typeIdx - 1) else s
  {
  }

  /** Down selects the next type when the type selector has the focus and one follows. */
  lemma DownKey(s: FormState)
    requires Invariant(s)
    ensures FormKey(s, Down) ==
      if s.focus == Type && s.typeIdx + 1 < |s.types| then s.(typeIdx := s.typeIdx + 1) else s
  {
  }

  /** Enter or Esc with no overlay open ends the loop, whatever keys would follow. */
  lemma RunStopsAtFinish(s: FormState, key: Key, more: seq<Key>, disk: Disk)
    requires Invariant(s) && s.overlay.None? && (key == Enter || key == Esc)
    ensures Run(s, [key] + more, disk) == Transition(s, Finish, disk)
  {
    var keys := [key] + more;
    assert keys[0] == key;
    FinishKeysIdle(s, key);
    assert Step(s, key, disk) == Transition(s, Finish, disk);
    RunStops(s, keys, disk);
  }

  // ---------- focus and the type selector ----------

  /** Five Tabs return to the starting field, and no fewer do. */
  lemma FocusRing(f: Focus)
    ensures NextFocus(NextFocus(NextFocus(NextFocus(NextFocus(f))))) == f
    ensures f != NextFocus(f) && f != NextFocus(NextFocus(f))
    ensures f != NextFocus(NextFocus(NextFocus(f)))
    ensures f != NextFocus(NextFocus(NextFocus(NextFocus(f))))
  {
  }

  /** Tab with no overlay open changes the focus and nothing else. */
  lemma TabRotatesFocus(s: FormState, disk: Disk)
    requires Invariant(s) && s.overlay.None?
    ensures Step(s, Tab, disk) == Transition(s.(focus := NextFocus(s.focus)), Continue, disk)
  {
  }

  /**
    Up and Down move the selection by at most one and only while Type is focused;
    they stay within the list and never wrap: Up at the first entry and Down at
    the last leave it where it is.
   */
  lemma TypeSelection(s: FormState, key: Key, disk: Disk)
    requires Invariant(s) && s.overlay.None? && (key == Up || key == Down)
    ensures var r := Step(s, key, disk).state;
      && r == s.(typeIdx := r.typeIdx)
      && r.typeIdx < |r.types|
      && (s.focus != Type ==> r == s)
      && (key == Up ==> r.typeIdx == if s.focus == Type && s.typeIdx > 0 then s.typeIdx - 1 else s.typeIdx)
      && (key == Down ==> r.typeIdx == if s.focus == Type && s.typeIdx + 1 < |s.types| then s.typeIdx + 1 else s.typeIdx)
  {
  }

  // ---------- key routing with no overlay ----------

  /** With Type focused, characters other than `+` and the editing keys change nothing. */
  lemma TypeFocusIgnoresText(s: FormState, key: Key, disk: Disk)
    requires Invariant(s) && s.overlay.None? && s.focus == Type
    requires key in {Backspace, Delete, Left, Right, Home, End} || (key.Char? && key.c != Plus)
    ensures Step(s, key, disk) == Transition(s, Continue, disk)
  {
  }

  /** An editing key goes to the focused text field only, through the matching `TextInput` operation. */
  lemma EditGoesToFocusedField(s: FormState, key: Key, disk: Disk)
    requires Invariant(s) && s.overlay.None? && s.focus != Type
    requires key in {Backspace, Delete, Left, Right, Home, End} || (key.Char? && key.c != Plus)
    ensures Step(s, key, disk) == Transition(WithFocused(s, EditKey(Focused(s).value, key)), Continue, disk)
  {
  }

  /**
    `+` never reaches a text field: from Type or Scope it opens an empty overlay
    for a new type or a new scope, and from the other fields it does nothing.
   */
  lemma PlusOpensOverlay(s: FormState, disk: Disk)
    requires Invariant(s) && s.overlay.None?
    ensures var r := Step(s, Char(Plus), disk);
      && r.outcome == Continue && r.disk == disk
      && r.state == s.(overlay := r.state.overlay)
      && (s.focus == Type ==> r.state.overlay == Some(OverlayState(NewType, Empty())))
      && (s.focus == Scope ==> r.state.overlay == Some(OverlayState(NewScope, Empty())))
      && (s.focus != Type && s.focus != Scope ==> r.state == s)
  {
  }

  // ---------- the overlay ----------

  /** While the overlay is open no key but Enter touches the form: only the overlay's input changes. */
  lemma OverlayCapturesInput(s: FormState, key: Key, disk: Disk)
    requires Invariant(s) && s.overlay.Some? && key != Enter && key != Esc
    ensures var ov := s.overlay.value;
      Step(s, key, disk) ==
        Transition(s.(overlay := Some(ov.(input := EditKey(ov.input, key)))), Continue, disk)
  {
  }

  /** Esc closes the overlay and changes nothing else. */
  lemma OverlayEscape(s: FormState, disk: Disk)
    requires Invariant(s) && s.overlay.Some?
    ensures Step(s, Esc, disk) == Transition(s.(overlay := None), Continue, disk)
  {
    assert Step(s, Esc, disk) == OverlayKey(s, s.overlay.value, Esc, disk);
  }

  /** Enter on a name made only of whitespace closes the overlay, saves nothing and changes nothing else. */
  lemma OverlayBlankName(s: FormState, disk: Disk)
    requires Invariant(s) && s.overlay.Some?
    requires forall c :: c in Chars(s.overlay.value.input.value) ==> IsWhitespace(c)
    ensures Step(s, Enter, disk) == Transition(s.(overlay := None), Continue, disk)
  {
    TrimEmpty(s.overlay.value.input.value);
  }

  /**
    A filesystem that refuses writes: a name to save ends the run with an error and
    changes nothing, unless it is a new type whose path exists already under an
    existing `components/`, which `persist_new_type` does not need to create.
   */
  lemma OverlayWriteFails(s: FormState, disk: Disk)
    requires Invariant(s) && s.overlay.Some? && disk.creatable == {} && !disk.scopeAppendable
    requires exists c :: c in Chars(s.overlay.value.input.value) && !IsWhitespace(c)
    ensures var r := Step(s, Enter, disk);
      && (r.outcome == Failed <==>
            !(&& s.overlay.value.target == NewType && disk.componentsDir
              && Trim(s.overlay.value.input.value) in disk.present))
      && (r.outcome == Failed ==> r == Transition(s, Failed, disk))
  {
    var name := NamedInOverlay(s, disk);
  }

  /**
    Enter on a new type: when `components/` can be made and the path for the
    trimmed name exists in it or can be created,
    the name is appended to the list, selected, and present on disk afterwards, with
    the fields, the focus and the scope log untouched; otherwise the run ends with an
    error and nothing changes.
   */
  lemma OverlayNewType(s: FormState, disk: Disk)
    requires Invariant(s) && s.overlay.Some? && s.overlay.value.target == NewType
    requires exists c :: c in Chars(s.overlay.value.input.value) && !IsWhitespace(c)
    ensures var name := Trim(s.overlay.value.input.value);
      var r := Step(s, Enter, disk);
      && name != []
      && (r.outcome == Continue <==>
            disk.componentsDir && (name in disk.present || name in disk.creatable))
      && (r.outcome == Continue ==>
            && r.state == s.(types := s.types + [name], typeIdx := |s.types|, overlay := None)
            && r.state.types[r.state.typeIdx] == name
            && r.disk == disk.(present := disk.present + {name}))
      && (r.outcome != Continue ==> r == Transition(s, Failed, disk))
  {
    var name := NamedInOverlay(s, disk);
    assert |s.types + [name]| - 1 == |s.types|;
  }

  /**
    Enter on a new type whose trimmed name holds a NUL byte: the operating system
    refuses the path, so the run ends with an error and nothing changes, on every
    filesystem.
   */
  lemma OverlayTypeNul(s: FormState, disk: Disk)
    requires Invariant(s) && s.overlay.Some? && s.overlay.value.target == NewType && NulFree(disk)
    requires var name := Trim(s.overlay.value.input.value); name != [] && 0x00 in name
    ensures Step(s, Enter, disk) == Transition(s, Failed, disk)
  {
    EnterConfirms(s, disk);
  }

  /** No key event makes a path with a NUL byte appear: the filesystem keeps refusing such names. */
  lemma StepKeepsNulFree(s: FormState, key: Key, disk: Disk)
    requires Invariant(s) && NulFree(disk)
    ensures NulFree(Step(s, key, disk).disk)
  {
    if s.overlay.Some? && key == Enter {
      EnterConfirms(s, disk);
      ConfirmKeepsNulFree(s, s.overlay.value, disk);
    } else {
      assert Step(s, key, disk).disk == disk;
    }
  }

  /** Confirming the overlay adds a path to the disk only when it was present or creatable. */
  lemma ConfirmKeepsNulFree(s: FormState, ov: OverlayState, disk: Disk)
    requires Invariant(s) && Wf(ov.input) && NulFree(disk)
    ensures NulFree(ConfirmOverlay(s, ov, disk).disk)
  {
    var name := Trim(ov.input.value);
    if name != [] && ov.target == NewType && Saves(disk, NewType, name) {
      assert ConfirmOverlay(s, ov, disk).disk == PersistType(disk, name);
    }
  }

  /** Nor does any run of the loop. */
  lemma {:induction false} RunKeepsNulFree(s: FormState, keys: seq<Key>, disk: Disk)
    requires Invariant(s) && NulFree(disk)
    ensures NulFree(Run(s, keys, disk).disk)
    decreases |keys|
  {
    if keys != [] {
      var t := Step(s, keys[0], disk);
      StepKeepsNulFree(s, keys[0], disk);
      if t.outcome == Continue {
        RunKeepsNulFree(t.state, keys[1..], t.disk);
      }
    }
  }

  /** Adding the type `a<NUL>b` fails on every filesystem. */
  lemma ExampleNulType(s: FormState, disk: Disk)
    requires Invariant(s) && NulFree(disk)
    requires s.overlay == Some(OverlayState(NewType, Buffer([0x61, 0x00, 0x62], 3)))
    ensures Step(s, Enter, disk).outcome == Failed
  {
    var v: seq<Byte> := [0x61, 0x00, 0x62];
    AsciiValid(v);
    TrimKeeps(v);
    assert v[1] == 0x00;
    OverlayTypeNul(s, disk);
  }

  /** Adding the type `feat` again succeeds on a read-only filesystem, because its marker exists. */
  lemma ExampleExistingType(s: FormState, disk: Disk)
    requires Invariant(s) && disk.creatable == {} && !disk.scopeAppendable
    requires disk.componentsDir && [0x66, 0x65, 0x61, 0x74] in disk.present
    requires s.overlay == Some(OverlayState(NewType, Buffer([0x66, 0x65, 0x61, 0x74], 4)))
    ensures Step(s, Enter, disk).outcome == Continue
  {
    var v: seq<Byte> := [0x66, 0x65, 0x61, 0x74];
    AsciiValid(v);
    TrimKeeps(v);
    EnterConfirms(s, disk);
  }

  /**
    Adding the type `/tmp` fails when `components/` cannot be made, although the
    path it names exists: `create_dir_all` comes first.
   */
  lemma ExampleNoComponentsDir(s: FormState, disk: Disk)
    requires Invariant(s) && !disk.componentsDir && [0x2F, 0x74, 0x6D, 0x70] in disk.present
    requires s.overlay == Some(OverlayState(NewType, Buffer([0x2F, 0x74, 0x6D, 0x70], 4)))
    ensures Step(s, Enter, disk) == Transition(s, Failed, disk)
  {
    var v: seq<Byte> := [0x2F, 0x74, 0x6D, 0x70];
    AsciiValid(v);
    TrimKeeps(v);
    EnterConfirms(s, disk);
  }

  /** Enter in the overlay with a name that is not blank confirms it, and the name is not empty. */
  lemma NamedInOverlay(s: FormState, disk: Disk) returns (name: seq<Byte>)
    requires Invariant(s) && s.overlay.Some?
    requires exists c :: c in Chars(s.overlay.value.input.value) && !IsWhitespace(c)
    ensures name == Trim(s.overlay.value.input.value) && name != []
    ensures Step(s, Enter, disk) == ConfirmOverlay(s, s.overlay.value, disk)
  {
    var input := s.overlay.value.input.value;
    name := Trim(input);
    var c :| c in Chars(input) && !IsWhitespace(c);
    TrimNonEmpty(input, c);
    EnterConfirms(s, disk);
  }

  /** Enter in the overlay goes to the overlay. */
  lemma EnterConfirms(s: FormState, disk: Disk)
    requires Invariant(s) && s.overlay.Some?
    ensures Step(s, Enter, disk) == ConfirmOverlay(s, s.overlay.value, disk)
  {
    assert Step(s, Enter, disk) == OverlayKey(s, s.overlay.value, Enter, disk);
  }

  /**
    Enter on a new scope: when the log can be appended to, the scope field becomes
    the trimmed name with the cursor at its end, the focus moves to Description,
    and the name is appended to the scope log as one line; otherwise the run ends
    with an error and nothing changes.
   */
  lemma OverlayNewScope(s: FormState, disk: Disk)
    requires Invariant(s) && s.overlay.Some? && s.overlay.value.target == NewScope
    requires exists c :: c in Chars(s.overlay.value.input.value) && !IsWhitespace(c)
    ensures var name := Trim(s.overlay.value.input.value);
      var r := Step(s, Enter, disk);
      && name != []
      && (r.outcome == Continue <==> disk.scopeAppendable)
      && (r.outcome == Continue ==>
            && r.state == s.(scope := r.state.scope, focus := Description, overlay := None)
            && r.state.scope.value == name && r.state.scope.cursor == |name|
            && View(r.state.scope) == Zipper(Chars(name), [])
            && r.disk == disk.(scopeLog := disk.scopeLog + name + [0x0A]))
      && (r.outcome != Continue ==> r == Transition(s, Failed, disk))
  {
    var name := NamedInOverlay(s, disk);
    if disk.scopeAppendable {
      assert ConfirmOverlay(s, s.overlay.value, disk) ==
        Transition(s.(scope := FromValue(name), focus := Description, overlay := None),
                   Continue, PersistScope(disk, name));
    }
  }

  // ---------- the list of types ----------

  /** An unreadable directory, or one with no usable name, gives the seven defaults in order. */
  lemma LoadTypesDefaults(listing: Option<seq<DirEntry>>)
    requires listing.None? || ListedNames(listing.value) == []
    ensures LoadTypes(listing) == DefaultTypes && |LoadTypes(listing)| == 7
  {
  }

  /** Otherwise the types are exactly the listed names, in listing order. */
  lemma LoadTypesListed(entries: seq<DirEntry>)
    requires ListedNames(entries) != []
    ensures LoadTypes(Some(entries)) == ListedNames(entries)
  {
  }

  /** A name is listed exactly when some readable entry has it as a UTF-8 file name. */
  lemma {:induction false} ListedNamesMembers(entries: seq<DirEntry>, t: seq<Byte>)
    ensures t in ListedNames(entries) <==>
      exists i :: 0 <= i < |entries| && entries[i] == Entry(t) && Valid(t)
  {
    if entries != [] {
      var n := |entries| - 1;
      var init, e := entries[..n], entries[n];
      ListedNamesMembers(init, t);
      assert ListedNames(entries) ==
        ListedNames(init) + (if e.Entry? && Valid(e.fileName) then [e.fileName] else []);
      if t in ListedNames(entries) {
        if t in ListedNames(init) {
          var i :| 0 <= i < |init| && init[i] == Entry(t) && Valid(t);
          assert entries[i] == init[i];
        } else {
          assert entries[n] == Entry(t) && Valid(t);
        }
      } else {
        forall i | 0 <= i < |entries|
          ensures !(entries[i] == Entry(t) && Valid(t))
        {
          if i < n {
            assert entries[i] == init[i];
          }
        }
      }
    }
  }

  /** The names keep the order of the listing: each is pushed after those listed before it. */
  lemma {:induction false} ListedNamesAppend(entries: seq<DirEntry>, e: DirEntry)
    ensures ListedNames(entries + [e]) ==
      ListedNames(entries) + (if e.Entry? && Valid(e.fileName) then [e.fileName] else [])
  {
    assert (entries + [e])[..|entries|] == entries;
  }

  // ---------- the message ----------

  /** The paragraphs of a message, one blank line between each two. */
  function JoinParagraphs(ps: seq<seq<Byte>>): seq<Byte>
    requires ps != []
  {
    if |ps| == 1 then ps[0] else JoinParagraphs(ps[..|ps| - 1]) + BlankLine + ps[|ps| - 1]
  }

  /** The non-empty strings among `ps`, in order. */
  function NonEmpty(ps: seq<seq<Byte>>): seq<seq<Byte>> {
    if ps == [] then []
    else (if ps[0] == [] then [] else [ps[0]]) + NonEmpty(ps[1..])
  }

  /**
    The message is its prefix line followed by the body and the footer as further
    paragraphs, each present only when not empty.
   */
  lemma MessageParagraphs(s: FormState)
    requires s.typeIdx < |s.types|
    ensures CommitMessage(s) ==
      JoinParagraphs([Prefix(s.types[s.typeIdx], s.scope.value, s.description.value)]
                     + NonEmpty([s.body.value, s.footer.value]))
  {
    var prefix := Prefix(s.types[s.typeIdx], s.scope.value, s.description.value);
    var b, f := s.body.value, s.footer.value;
    assert NonEmpty([b, f]) == (if b == [] then [] else [b]) + NonEmpty([f]) by {
      assert [b, f][1..] == [f];
    }
    var none: seq<seq<Byte>> := [];
    assert NonEmpty([f]) == (if f == [] then [] else [f]) + NonEmpty(none) by {
      assert [f][1..] == none;
    }
    if b != [] && f != [] {
      var ps := [prefix] + NonEmpty([b, f]);
      assert ps == [prefix, b, f];
      assert ps[..2] == [prefix, b] && [prefix, b][..1] == [prefix];
      assert JoinParagraphs([prefix, b]) == prefix + BlankLine + b;
      assert JoinParagraphs(ps) == JoinParagraphs([prefix, b]) + BlankLine + f;
    } else if b != [] {
      assert [prefix, b][..1] == [prefix];
    } else if f != [] {
      assert [prefix, f][..1] == [prefix];
    }
  }

  /**
    The message starts with its prefix line, and each of the body and the footer
    adds its own length and two line feeds when not empty.
   */
  lemma MessageLayout(s: FormState)
    requires s.typeIdx < |s.types|
    ensures var m, pr := CommitMessage(s), Prefix(s.types[s.typeIdx], s.scope.value, s.description.value);
      && |pr| <= |m| && m[..|pr|] == pr
      && |m| == |pr| + (if s.body.value == [] then 0 else 2 + |s.body.value|)
                     + (if s.footer.value == [] then 0 else 2 + |s.footer.value|)
  {
    var b, f := s.body.value, s.footer.value;
    var pr := Prefix(s.types[s.typeIdx], s.scope.value, s.description.value);
    var tail := (if b == [] then [] else BlankLine + b) + (if f == [] then [] else BlankLine + f);
    assert CommitMessage(s) == pr + tail;
  }

  /**
    No field is trimmed or rewritten: the type comes first, then either `: ` or
    `(scope): `, and the description, which starts at `p`, ends the line byte for byte.
   */
  lemma PrefixLayout(t: seq<Byte>, sc: seq<Byte>, d: seq<Byte>) returns (p: nat)
    ensures p == if sc == [] then |t| + 2 else |t| + |sc| + 4
    ensures var pr := Prefix(t, sc, d);
      && |pr| == p + |d| && pr[..|t|] == t && pr[p..] == d
      && (sc == [] ==> pr[|t|..|t| + 2] == ColonSpace)
      && (sc != [] ==> pr[|t|] == 0x28 && pr[|t| + 1..|t| + 1 + |sc|] == sc
                       && pr[|t| + 1 + |sc|..p] == [0x29] + ColonSpace)
  {
    p := if sc == [] then |t| + 2 else |t| + |sc| + 4;
    var pr := Prefix(t, sc, d);
    if sc == [] {
      assert pr == t + ColonSpace + d;
    } else {
      assert pr == t + [0x28] + sc + [0x29] + ColonSpace + d;
    }
  }

  lemma PrefixValid(t: seq<Byte>, sc: seq<Byte>, d: seq<Byte>)
    requires Valid(t) && Valid(sc) && Valid(d)
    ensures Valid(Prefix(t, sc, d))
  {
    AsciiValid(ColonSpace);
    ValidAppend(t, ColonSpace);
    if sc == [] {
      ValidAppend(t + ColonSpace, d);
    } else {
      AsciiValid([0x28]);
      AsciiValid([0x29]);
      ValidAppend(t, [0x28]);
      ValidAppend(t + [0x28], sc);
      ValidAppend(t + [0x28] + sc, [0x29]);
      ValidAppend(t + [0x28] + sc + [0x29], ColonSpace);
      ValidAppend(t + [0x28] + sc + [0x29] + ColonSpace, d);
    }
  }

  /** The message is well-formed UTF-8 when the fields are. */
  lemma MessageValid(s: FormState)
    requires Invariant(s)
    ensures Valid(CommitMessage(s))
  {
    var prefix := Prefix(s.types[s.typeIdx], s.scope.value, s.description.value);
    var b, f := s.body.value, s.footer.value;
    PrefixValid(s.types[s.typeIdx], s.scope.value, s.description.value);
    AsciiValid(BlankLine);
    ValidAppend(prefix, BlankLine);
    ValidAppend(prefix + BlankLine, b);
    var withBody := if b == [] then prefix else prefix + BlankLine + b;
    ValidAppend(withBody, BlankLine);
    ValidAppend(withBody + BlankLine, f);
  }

  lemma {:induction false} AsciiAppend(a: string, b: string)
    ensures Ascii(a + b) == Ascii(a) + Ascii(b)
  {
    assert |Ascii(a + b)| == |Ascii(a) + Ascii(b)|;
    forall i | 0 <= i < |a + b| ensures Ascii(a + b)[i] == (Ascii(a) + Ascii(b))[i] {
      if i >= |a| {
        assert (a + b)[i] == b[i - |a|];
      }
    }
  }

  /** `feat: add x`: a type and a description only. */
  lemma ExampleShort(s: FormState)
    requires s.types == [Ascii("feat")] && s.typeIdx == 0 && s.description.value == Ascii("add x")
    requires s.scope.value == [] && s.body.value == [] && s.footer.value == []
    ensures CommitMessage(s) == Ascii("feat: add x")
  {
    assert ColonSpace == Ascii(": ");
    AsciiAppend("feat", ": ");
    AsciiAppend("feat: ", "add x");
    assert "feat: " + "add x" == "feat: add x";
  }

  /** `feat(api): add x`: the scope goes in parentheses. */
  lemma ExampleScoped(s: FormState)
    requires s.types == [Ascii("feat")] && s.typeIdx == 0 && s.description.value == Ascii("add x")
    requires s.scope.value == Ascii("api") && s.body.value == [] && s.footer.value == []
    ensures CommitMessage(s) == Ascii("feat(api): add x")
  {
    assert [0x28] == Ascii("(") && [0x29] + ColonSpace == Ascii("): ");
    AsciiAppend("feat", "(");
    AsciiAppend("feat(", "api");
    AsciiAppend("feat(api", "): ");
    AsciiAppend("feat(api): ", "add x");
    assert "feat(api): " + "add x" == "feat(api): add x";
  }

  /** A body and a footer each follow a blank line. */
  lemma ExampleFull(s: FormState)
    requires s.types == [Ascii("feat")] && s.typeIdx == 0 && s.description.value == Ascii("add x")
    requires s.scope.value == Ascii("api") && s.body.value == Ascii("detail")
    requires s.footer.value == Ascii("BREAKING CHANGE: y")
    ensures CommitMessage(s) == Ascii("feat(api): add x\n\ndetail\n\nBREAKING CHANGE: y")
  {
    var head, body, footer := Ascii("feat(api): add x"), Ascii("detail"), Ascii("BREAKING CHANGE: y");
    assert CommitMessage(s) == head + BlankLine + body + BlankLine + footer by {
      ExampleScoped(s.(body := Buffer([], 0), footer := Buffer([], 0)));
    }
    FullText("feat(api): add x", "detail", "BREAKING CHANGE: y");
    FullLiteral();
  }

  /** The three paragraphs of the full example, joined, spelled as one literal. */
  lemma FullLiteral()
    ensures "feat(api): add x" + "\n\n" + "detail" + "\n\n" + "BREAKING CHANGE: y"
         == "feat(api): add x\n\ndetail\n\nBREAKING CHANGE: y"
  {
  }

  /** Three paragraphs joined by blank lines, in ASCII. */
  lemma FullText(h: string, d: string, f: string)
    ensures Ascii(h) + BlankLine + Ascii(d) + BlankLine + Ascii(f) == Ascii(h + "\n\n" + d + "\n\n" + f)
  {
    assert BlankLine == Ascii("\n\n");
    AsciiAppend(h, "\n\n");
    AsciiAppend(h + "\n\n", d);
    AsciiAppend(h + "\n\n" + d, "\n\n");
    AsciiAppend(h + "\n\n" + d + "\n\n", f);
  }
}
