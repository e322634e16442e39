/**
  The form of src/main.rs as values: the state `App` holds, the transition one key
  event makes in the loop of `run_tui`, the list of types `App::new` starts from,
  and the message `App::commit_message` assembles.

  Persistence is modelled by `Disk`, the part of the filesystem the form writes:
  which paths under `components/` exist and which can be created there, the bytes
  of `scopes.txt`, and whether the directories and the log can be written.
 */
module Form {
  import opened Wrappers
  import opened Utf8
  import opened TextEdit

  datatype Focus = Type | Scope | Description | Body | Footer

  datatype OverlayTarget = NewType | NewScope

  /** An open overlay: which value it adds, and its own text input. */
  datatype OverlayState = OverlayState(target: OverlayTarget, input: Buffer)

  /** The key codes the loop tells apart; `Other` stands for every other code. */
  datatype Key =
    | Char(c: CodePoint)
    | Backspace | Delete | Left | Right | Home | End
    | Up | Down | Tab | Enter | Esc
    | Other

  /** The fields of `App`. */
  datatype FormState = FormState(
    types: seq<seq<Byte>>,
    typeIdx: nat,
    scope: Buffer,
    description: Buffer,
    body: Buffer,
    footer: Buffer,
    focus: Focus,
    overlay: Option<OverlayState>)

  /**
    The filesystem as the form sees it.
    - `componentsDir`: whether `create_dir_all` of `.pre-form-git/components`
      succeeds (the directory exists, or can be made).
    - A type name `n` stands for the path `.pre-form-git/components/<n>`:
      `n in present` when that path exists (a marker, or whatever else it resolves
      to, such as `.` or `./`), and `n in creatable` when `File::create` can make
      it once `components/` is there (the filesystem accepts the write, the
      directory the path names exists, and the name is not too long).
    - `scopeAppendable`: whether `create_dir_all` of `.pre-form-git` succeeds and
      `scopes.txt` can be opened for appending and written; `scopeLog` is its
      contents.
   */
  datatype Disk = Disk(
    componentsDir: bool,
    present: set<seq<Byte>>,
    creatable: set<seq<Byte>>,
    scopeAppendable: bool,
    scopeLog: seq<Byte>)

  /** The operating system refuses a path with a NUL byte: such a name neither exists nor can be created. */
  predicate NulFree(d: Disk) {
    forall n :: n in d.present + d.creatable ==> 0x00 !in n
  }

  /** What one key event does to the loop: go on, finish, or end it with an I/O error. */
  datatype Outcome = Continue | Finish | Failed

  datatype Transition = Transition(state: FormState, outcome: Outcome, disk: Disk)

  /** The invariant the form keeps: a valid type index and well-formed text everywhere. */
  predicate Invariant(s: FormState) {
    && s.typeIdx < |s.types|
    && (forall t :: t in s.types ==> Valid(t))
    && Wf(s.scope) && Wf(s.description) && Wf(s.body) && Wf(s.footer)
    && (s.overlay.Some? ==> Wf(s.overlay.value.input))
  }

  // ---------- the list of types (App::new) ----------

  /**
    The bytes of an ASCII string: one per character, its code, which is its UTF-8
    encoding. A character from U+0080 up is not ASCII and has no such byte: up to
    U+00FF it gives its Latin-1 byte, above that 0.
   */
  function Ascii(s: string): (r: seq<Byte>)
    ensures |r| == |s|
  {
    seq(|s|, i requires 0 <= i < |s| => if s[i] as int < 0x100 then s[i] as int else 0)
  }

  /** The seven types the form falls back to, in this order. */
  const DefaultTypes: seq<seq<Byte>> :=
    [Ascii("feat"), Ascii("fix"), Ascii("docs"), Ascii("style"),
     Ascii("refactor"), Ascii("test"), Ascii("chore")]

  /** An entry of the components directory: one that could not be read, or a file name. */
  datatype DirEntry = Unreadable | Entry(fileName: seq<Byte>)

  /**
    The names the listing loop pushes, in listing order: unreadable entries are
    skipped, and so are file names that are not UTF-8 (`to_str` fails).
   */
  function ListedNames(entries: seq<DirEntry>): seq<seq<Byte>> {
    if entries == [] then []
    else
      var e := entries[|entries| - 1];
      ListedNames(entries[..|entries| - 1])
        + (if e.Entry? && Valid(e.fileName) then [e.fileName] else [])
  }

  /** The types `App::new` starts from; `None` is a directory that could not be read. */
  function LoadTypes(listing: Option<seq<DirEntry>>): (r: seq<seq<Byte>>)
    ensures r != []
  {
    var names := if listing.Some? then ListedNames(listing.value) else [];
    if names == [] then DefaultTypes else names
  }

  /** The state `App::new` builds. */
  function Initial(listing: Option<seq<DirEntry>>): FormState {
    FormState(LoadTypes(listing), 0, Empty(), Empty(), Empty(), Empty(), Type, None)
  }

  // ---------- one key event (the loop body of run_tui) ----------

  /** Tab: Type, Scope, Description, Body, Footer, and back to Type. */
  function NextFocus(f: Focus): Focus {
    match f
    case Type => Scope
    case Scope => Description
    case Description => Body
    case Body => Footer
    case Footer => Type
  }

  /** `current_input_mut`: the text input of the focused field; none for Type. */
  function Focused(s: FormState): (r: Option<Buffer>)
    ensures r.None? <==> s.focus == Type
    ensures r.Some? && Invariant(s) ==> Wf(r.value)
  {
    match s.focus
    case Type => None
    case Scope => Some(s.scope)
    case Description => Some(s.description)
    case Body => Some(s.body)
    case Footer => Some(s.footer)
  }

  /** `s` with the input of its focused text field replaced by `b`. */
  function WithFocused(s: FormState, b: Buffer): (r: FormState)
    requires s.focus != Type
    ensures Focused(r) == Some(b)
  {
    match s.focus
    case Scope => s.(scope := b)
    case Description => s.(description := b)
    case Body => s.(body := b)
    case Footer => s.(footer := b)
  }

  /** The editing keys, as both the overlay and the text fields route them to a `TextInput`. */
  function EditKey(b: Buffer, key: Key): (r: Buffer)
    requires Wf(b)
    ensures Wf(r)
  {
    match key
    case Left => MovedLeftView(b); MovedLeft(b)
    case Right => MovedRightView(b); MovedRight(b)
    case Home => MovedHomeView(b); MovedHome(b)
    case End => MovedEndView(b); MovedEnd(b)
    case Delete => DeletedView(b); Deleted(b)
    case Backspace => BackspacedView(b); Backspaced(b)
    case Char(c) => InsertedView(b, c); Inserted(b, c)
    case _ => b
  }

  /** The character that `maybe_open_overlay` is bound to. */
  const Plus: CodePoint := 0x2B

  /** `maybe_open_overlay`: a new type from Type, a new scope from Scope, else no overlay. */
  function OpenOverlay(s: FormState): (r: FormState)
    ensures r == s.(overlay := r.overlay)
    ensures r.overlay.Some? <==> s.focus == Type || s.focus == Scope
    ensures r.overlay.Some? ==> r.overlay.value.input == Empty()
    ensures r.overlay.Some? ==> (r.overlay.value.target == NewType <==> s.focus == Type)
  {
    var ov := match s.focus
      case Type => Some(OverlayState(NewType, Empty()))
      case Scope => Some(OverlayState(NewScope, Empty()))
      case _ => None;
    s.(overlay := ov)
  }

  /**
    Whether saving `name` succeeds: for a type, `persist_new_type` makes
    `components/` and then finds the path present or creates it; for a scope,
    `persist_new_scope` can append to the log.
   */
  predicate Saves(d: Disk, target: OverlayTarget, name: seq<Byte>) {
    match target
    case NewType => d.componentsDir && (name in d.present || name in d.creatable)
    case NewScope => d.scopeAppendable
  }

  /** `persist_new_type`: the path for `name` exists afterwards; nothing is created when it already does. */
  function PersistType(d: Disk, name: seq<Byte>): Disk {
    d.(present := d.present + {name})
  }

  /** `persist_new_scope`: `name` and a line feed are appended to the scope log. */
  function PersistScope(d: Disk, name: seq<Byte>): Disk {
    d.(scopeLog := d.scopeLog + name + [0x0A])
  }

  /** Enter in the overlay: save the trimmed name, unless it is blank; close the overlay. */
  function ConfirmOverlay(s: FormState, ov: OverlayState, disk: Disk): (r: Transition)
    requires Invariant(s) && Wf(ov.input)
    ensures Invariant(r.state)
    ensures r.outcome != Finish
    ensures var name := Trim(ov.input.value);
      r.outcome == Failed <==> name != [] && !Saves(disk, ov.target, name)
  {
    var name := Trim(ov.input.value);
    if name == [] then Transition(s.(overlay := None), Continue, disk)
    else if !Saves(disk, ov.target, name) then Transition(s, Failed, disk)
    else match ov.target
      case NewType =>
        var types := s.types + [name];
        Transition(s.(types := types, typeIdx := |types| - 1, overlay := None),
                   Continue, PersistType(disk, name))
      case NewScope =>
        Transition(s.(scope := FromValue(name), focus := Description, overlay := None),
                   Continue, PersistScope(disk, name))
  }

  /** A key while the overlay is open: it goes to the overlay and nowhere else. */
  function OverlayKey(s: FormState, ov: OverlayState, key: Key, disk: Disk): (r: Transition)
    requires Invariant(s) && Wf(ov.input)
    ensures Invariant(r.state)
    ensures r.outcome != Finish
  {
    match key
    case Esc => Transition(s.(overlay := None), Continue, disk)
    case Enter => ConfirmOverlay(s, ov, disk)
    case _ => Transition(s.(overlay := Some(ov.(input := EditKey(ov.input, key)))), Continue, disk)
  }

  /** An editing key goes to the focused text field, if there is one. */
  function EditFocused(s: FormState, key: Key): (r: FormState)
    requires Invariant(s)
    ensures r.types == s.types && Invariant(r)
    ensures s.focus == Type ==> r == s
    ensures s.focus != Type ==> r == WithFocused(s, EditKey(Focused(s).value, key))
  {
    match s.focus
    case Type => s
    case Scope => s.(scope := EditKey(s.scope, key))
    case Description => s.(description := EditKey(s.description, key))
    case Body => s.(body := EditKey(s.body, key))
    case Footer => s.(footer := EditKey(s.footer, key))
  }

  /** A key with no overlay open. */
  function FormKey(s: FormState, key: Key): (r: FormState)
    requires Invariant(s)
    ensures r.types == s.types && Invariant(r)
  {
    match key
    case Tab => s.(focus := NextFocus(s.focus))
    case Up => if s.focus == Type && s.typeIdx > 0 then s.(typeIdx := s.typeIdx - 1) else s
    case Down => if s.focus == Type && s.typeIdx + 1 < |s.types| then s.(typeIdx := s.typeIdx + 1) else s
    case Char(c) => if c == Plus then OpenOverlay(s) else EditFocused(s, key)
    case Enter => s
    case Esc => s
    case Other => s
    case _ => EditFocused(s, key)
  }

  /** One key event of the loop in `run_tui`. */
  function Step(s: FormState, key: Key, disk: Disk): (r: Transition)
    requires Invariant(s)
    ensures r.outcome == Finish <==> s.overlay.None? && (key == Enter || key == Esc)
    ensures r.outcome == Failed ==> r.state == s && r.disk == disk
    ensures Invariant(r.state)
  {
    match s.overlay
    case Some(ov) => OverlayKey(s, ov, key, disk)
    case None =>
      Transition(FormKey(s, key), if key == Enter || key == Esc then Finish else Continue, disk)
  }

  /**
    The loop of `run_tui` over the key events `keys`, in order: it stops at the
    first event that finishes the form or fails, and otherwise goes on with the
    next one from the state and the disk that the event left.
   */
  function Run(s: FormState, keys: seq<Key>, disk: Disk): (r: Transition)
    requires Invariant(s)
    ensures Invariant(r.state)
    decreases |keys|
  {
    if keys == [] then Transition(s, Continue, disk)
    else
      var t := Step(s, keys[0], disk);
      if t.outcome != Continue then t else Run(t.state, keys[1..], t.disk)
  }

  // ---------- the message (App::commit_message) ----------

  const ColonSpace: seq<Byte> := [0x3A, 0x20]       // ": "
  const BlankLine: seq<Byte> := [0x0A, 0x0A]        // "\n\n"

  /** `type: description`, or `type(scope): description` when the scope is not empty. */
  function Prefix(t: seq<Byte>, scope: seq<Byte>, description: seq<Byte>): seq<Byte> {
    if scope == [] then t + ColonSpace + description
    else t + [0x28] + scope + [0x29] + ColonSpace + description
  }

  /** `commit_message`: the prefix, then the body and the footer, each after a blank line when not empty. */
  function CommitMessage(s: FormState): seq<Byte>
    requires s.typeIdx < |s.types|
  {
    var prefix := Prefix(s.types[s.typeIdx], s.scope.value, s.description.value);
    var withBody := if s.body.value == [] then prefix else prefix + BlankLine + s.body.value;
    if s.footer.value == [] then withBody else withBody + BlankLine + s.footer.value
  }
}
