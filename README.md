# pre-form: a verified model of the commit form

pre-form is a terminal form that a Git `prepare-commit-msg` hook opens. The user
picks a commit type from a list, fills in a scope, a description, a body and a
footer, and may add a new type or a new scope through a small overlay. The form then
assembles a Conventional Commits message. This project models the engine of that form
in `src/main.rs` and proves what it promises:

- `TextInput` is an editable UTF-8 string with a cursor that is a byte offset. Here it
  is a class (`Input.TextInput`) whose methods update `value` and `cursor` in place.
  `Backspace` and `MoveLeft` keep the source's backward scan for a character
  boundary as a loop. Each method is proved to leave the buffer that a function of
  `TextEdit` describes, and to keep the invariant: the value is well-formed UTF-8
  and the cursor is on a character boundary. Independently of the bytes, a
  buffer is also the pair of character sequences before and after the cursor
  (`TextEdit.View`). Lemmas prove that every byte-level operation is the expected
  edit of that pair.
- UTF-8 (module `Utf8`) follows section 3 of RFC 3629. It covers:
  - the encoder of one scalar value;
  - a decoder that refuses overlong forms, surrogates and values above U+10FFFF;
  - `is_char_boundary`;
  - `str::trim` over the Unicode White_Space characters.

  Both round trips between characters and bytes are proved.
- The `App` state and the key routing of the `run_tui` loop. `Form` defines these as
  values: one key event is `Form.Step`, and a sequence of events is `Form.Run`.
  `FormProperties` proves what the form promises about them. `Tui.App` is the object
  whose fields are updated in place. Its methods (`Step`, `Run`, `FormKey`,
  `OverlayKey`, `MaybeOpenOverlay`, …) are proved to produce exactly the state
  `Form` prescribes, and to keep the form's invariant:
  - the type index is in range;
  - every type name and every text field is well-formed UTF-8;
  - every cursor is on a boundary.
- The type list of `App::new`: the UTF-8 names of a readable listing, in order, or
  the seven defaults. Both a function (`Form.LoadTypes`) and the loop
  (`Tui.LoadTypes`) model it.
- `commit_message` (`Form.CommitMessage`), with its layout and worked examples.

Persistence is a value, `Form.Disk`. It holds the filesystem's answers, which the
form does not decide:
- `componentsDir`: whether `create_dir_all` of `.pre-form-git/components` succeeds,
  because the directory exists or can be made;
- `present`: the type names whose path `.pre-form-git/components/<name>` exists;
- `creatable`: the type names whose path `File::create` can make once `components/`
  is there. The filesystem must accept the write, the directory the path names must
  exist, and the name must not be too long;
- `scopeAppendable`: whether `create_dir_all` of `.pre-form-git` succeeds and
  `scopes.txt` can be opened for appending and written;
- the bytes of the scope log.

A directory listing is a parameter: `None` when the directory cannot be read, or a
sequence of entries, where each one is unreadable or a file name given as bytes.

## Model

| member | source | states |
|---|---|---|
| Utf8.LenUtf8 | src/main.rs:66 | `char::len_utf8` is 1 to 4, and 1 exactly for ASCII |
| Utf8.EncodeChar | src/main.rs:65 | the encoding has `LenUtf8(c)` bytes; its lead byte announces that width and every further byte is a continuation byte |
| Utf8.LeadWidth | src/main.rs:83 | a lead byte announces at most 4 bytes, and 0 exactly for a continuation byte or 0xF8 and above |
| Utf8.IsScalar | src/main.rs:64 | the values a Rust `char` can hold (the `CodePoint` type): below U+110000 and not a surrogate; `DecodeChar` accepts nothing else |
| Utf8.IsBoundary | src/main.rs:73 | `str::is_char_boundary`: the start, the end, or a byte that is not 10xxxxxx; `SplitAtBoundary` and `LastChar` state what it guarantees |
| Utf8.DecodeChar | src/main.rs:83 | a decoded character took exactly `LenUtf8` of its bytes: only shortest forms are accepted |
| Utf8.Decode | src/main.rs:48 | a well-formed string decodes to no characters exactly when it is empty |
| Utf8.Valid | src/main.rs:48 | the invariant of a Rust `String`: its bytes decode; `DecodeEncode` and `EncodeDecode` tie it to `Encode` |
| Utf8.Chars | src/main.rs:83 | `str::chars`: the decoded characters, in order; `DecodeCons`, `FirstChar` and `LastChar` state their layout in the bytes |
| Utf8.Encode | src/main.rs:65 | the bytes of a character sequence, one encoding after the other; `DecodeEncode`, `EncodeDecode` and `EncodeAppend` state its properties |
| Utf8.DecodeEncodeChar | src/main.rs:65 | decoding the encoding of any character gives that character back |
| Utf8.EncodeDecodeChar | src/main.rs:83 | every byte group the decoder accepts is the encoding of what it decodes to |
| Utf8.EncodeAppend | src/main.rs:65 | encoding distributes over concatenation |
| Utf8.DecodeEncode | src/main.rs:48 | every character sequence encodes to well-formed bytes that decode back to it |
| Utf8.DecodeCons | src/main.rs:83 | a non-empty well-formed string is one character (its lead byte's width) followed by a well-formed rest |
| Utf8.EncodeDecode | src/main.rs:48 | every well-formed string is the encoding of its characters |
| Utf8.EncodeCharValid | src/main.rs:65 | one character's encoding is well-formed and holds exactly that character |
| Utf8.ValidAppend | src/main.rs:65 | joining two well-formed strings is well-formed and joins their characters |
| Utf8.ValidStartsWithLead | src/main.rs:73 | a well-formed string never starts with a continuation byte |
| Utf8.FirstChar | src/main.rs:83 | the first character's bytes are its encoding, end on a boundary, and the rest holds the remaining characters |
| Utf8.SplitAtBoundary | src/main.rs:73-76 | cutting well-formed bytes at any `is_char_boundary` position gives two well-formed halves whose characters join to the whole |
| Utf8.LastChar | src/main.rs:72-75 | the last character starts at a boundary, no boundary lies inside it, and what precedes it is well-formed |
| Utf8.TrimStart | src/main.rs:367 | the result is a suffix, everything dropped is whitespace, and it does not start with whitespace |
| Utf8.TrimEnd | src/main.rs:367 | the result is a prefix, everything dropped is whitespace, and it does not end with whitespace |
| Utf8.IsWhitespace | src/main.rs:367 | `char::is_whitespace`: the Unicode White_Space characters, which `TrimChars` and `TrimEmpty` use |
| Utf8.Trim | src/main.rs:367 | `str::trim` of well-formed bytes is well-formed |
| Utf8.TrimChars | src/main.rs:367 | the trimmed text is the run of characters between a whitespace-only head and a whitespace-only tail, starting and ending with non-whitespace |
| Utf8.TrimEmpty | src/main.rs:367-368 | the trimmed name is empty exactly when every character is whitespace |
| Utf8.TrimNonEmpty | src/main.rs:367-368 | a name with one non-whitespace character does not trim to nothing |
| Utf8.TrimKeeps | src/main.rs:367 | a string that starts and ends with a character that is not whitespace is its own trim |
| TextEdit.View | src/main.rs:47-50 | the characters before and after the cursor are together all the characters of the value |
| TextEdit.Wf | src/main.rs:47-50 | the invariant of `TextInput`: well-formed UTF-8 with the cursor on a character boundary, which every `*View` lemma shows kept |
| TextEdit.Empty | src/main.rs:52-57 | `TextInput::new` is well-formed with no characters |
| TextEdit.FromValue | src/main.rs:58-63 | `TextInput::from` is well-formed with every character before the cursor |
| TextEdit.PrevBoundary | src/main.rs:72-75 | the backward scan stops at the nearest boundary below the cursor: no boundary lies in between |
| TextEdit.NextCharLen | src/main.rs:83 | the first character's length lies within the rest and ends on a boundary |
| TextEdit.NextCharSplit | src/main.rs:83 | the first `NextCharLen` bytes after the cursor encode the next character, and what follows holds the others |
| TextEdit.StepOver | src/main.rs:100 | stepping over the character at a boundary moves exactly that character from after to before |
| TextEdit.Inserted | src/main.rs:64-67 | the encoding of `c` lies at the old cursor, the cursor advances by `len_utf8(c)`, and the bytes before and after are unchanged |
| TextEdit.Backspaced | src/main.rs:68-78 | a no-op at 0; otherwise removes the bytes from the nearest lower boundary up to the cursor, which moves to that boundary |
| TextEdit.Deleted | src/main.rs:79-85 | a no-op at the end; otherwise the cursor stays and the value shrinks |
| TextEdit.MovedLeft | src/main.rs:86-95 | the value is untouched; a no-op at 0; otherwise the cursor goes to the nearest lower boundary |
| TextEdit.MovedRight | src/main.rs:96-102 | the value is untouched; a no-op at the end; otherwise the cursor goes forward to a boundary |
| TextEdit.MovedHome | src/main.rs:103-105 | the value is untouched and the cursor is 0 |
| TextEdit.MovedEnd | src/main.rs:106-108 | the value is untouched and the cursor is the length |
| TextEdit.JoinView | src/main.rs:47-50 | two well-formed strings with the cursor between them are a well-formed buffer with that split of characters |
| TextEdit.PrevBoundaryIsLastChar | src/main.rs:72-75 | the backward scan stops exactly at the start of the last character before the cursor |
| TextEdit.InsertedView | src/main.rs:64-67 | `insert_char(c)` adds `c` just before the cursor, in characters, and keeps the invariant |
| TextEdit.BackspacedView | src/main.rs:68-78 | `backspace` removes the one character just before the cursor, if any, and keeps the invariant |
| TextEdit.DeletedView | src/main.rs:79-85 | `delete` removes the one character just after the cursor, if any, and keeps the invariant |
| TextEdit.DeletedNext | src/main.rs:83-84 | with a character after the cursor, `delete` removes exactly it |
| TextEdit.MovedLeftView | src/main.rs:86-95 | `move_left` moves the last character before the cursor to after it, if any |
| TextEdit.MovedRightView | src/main.rs:96-102 | `move_right` moves the first character after the cursor to before it, if any |
| TextEdit.MovedRightNext | src/main.rs:100-101 | with a character after the cursor, the cursor steps past exactly that character |
| TextEdit.MovedHomeView | src/main.rs:103-105 | `move_home` puts every character after the cursor |
| TextEdit.MovedEndView | src/main.rs:106-108 | `move_end` puts every character before the cursor |
| TextEdit.InsertThenBackspace | src/main.rs:64-78 | `insert_char(c)` then `backspace()` restores value and cursor, for characters of any width |
| Input.TextInput.constructor | src/main.rs:52-57 | the new input is empty and valid |
| Input.TextInput.Valid | src/main.rs:47-50 | the object's fields satisfy `TextEdit.Wf`; every method keeps it |
| Input.TextInput.From | src/main.rs:58-63 | the input holds `s` with the cursor at its end |
| Input.TextInput.InsertChar | src/main.rs:64-67 | the fields become `Inserted` of the old ones; the invariant is kept |
| Input.TextInput.Backspace | src/main.rs:68-78 | the backward scan loop leaves the fields `Backspaced` of the old ones; the invariant is kept |
| Input.TextInput.Delete | src/main.rs:79-85 | the fields become `Deleted` of the old ones; the invariant is kept |
| Input.TextInput.MoveLeft | src/main.rs:86-95 | the backward scan loop leaves the fields `MovedLeft` of the old ones; the invariant is kept |
| Input.TextInput.MoveRight | src/main.rs:96-102 | the fields become `MovedRight` of the old ones; the invariant is kept |
| Input.TextInput.MoveHome | src/main.rs:103-105 | the fields become `MovedHome` of the old ones |
| Input.TextInput.MoveEnd | src/main.rs:106-108 | the fields become `MovedEnd` of the old ones |
| Form.Invariant | src/main.rs:120-129 | the form's invariant: the type index is in range, every type name and text is well-formed, every cursor on a boundary; `InitialInvariant`, `Form.Step` and `Form.Run` show it kept |
| Form.Ascii | src/main.rs:142-150 | one byte per character of a string literal |
| Form.DefaultTypes | src/main.rs:141-151 | the seven default types in order; `LoadTypesDefaults` states when they are used |
| Form.ListedNames | src/main.rs:133-140 | the names the listing loop pushes; `ListedNamesMembers` and `ListedNamesAppend` state which and in what order |
| Form.LoadTypes | src/main.rs:133-151 | the list of types is never empty |
| Form.Initial | src/main.rs:152-161 | the state `App::new` builds; `InitialInvariant` shows it keeps the invariant |
| Form.NextFocus | src/main.rs:398-404 | the Tab ring; `FocusRing` shows that five Tabs return to the start and no fewer do |
| Form.Focused | src/main.rs:318-326 | there is no focused input exactly when Type has the focus, and a focused input is well-formed |
| Form.WithFocused | src/main.rs:318-326 | the replaced input is the focused one |
| Form.EditKey | src/main.rs:384-391 | an editing key keeps an input well-formed |
| Form.OpenOverlay | src/main.rs:328-340 | only the overlay changes; it opens empty exactly from Type (new type) or Scope (new scope) |
| Form.NulFree | src/main.rs:201-204 | a path with a NUL byte neither exists nor can be created; `StepKeepsNulFree` and `RunKeepsNulFree` show the form keeps this, and `OverlayTypeNul` uses it |
| Form.Saves | src/main.rs:199-217 | `persist_new_type` succeeds when `create_dir_all` makes `components/` and then the path exists (`p.exists()`) or can be created; `persist_new_scope` succeeds when the log can be appended to; `ConfirmOverlay` fails exactly otherwise |
| Form.PersistType | src/main.rs:199-206 | the path for the name exists afterwards, and nothing changes when it already did; `OverlayNewType` states the disk afterwards |
| Form.PersistScope | src/main.rs:208-217 | the name and a line feed are appended to the scope log; `OverlayNewScope` states the disk afterwards |
| Form.ConfirmOverlay | src/main.rs:366-383 | Enter in the overlay keeps the invariant, never finishes the loop, and fails exactly on a non-blank name that `Saves` refuses |
| Form.OverlayKey | src/main.rs:361-394 | a key with the overlay open keeps the invariant and never finishes the loop |
| Form.EditFocused | src/main.rs:417-447 | an editing key changes only the focused text field, through the matching `TextInput` operation, and nothing with Type focused |
| Form.FormKey | src/main.rs:396-464 | a key with no overlay open keeps the list of types and the invariant |
| Form.Step | src/main.rs:361-464 | the loop finishes exactly on Enter or Esc with no overlay open; a failed write changes nothing; the invariant is kept |
| Form.Run | src/main.rs:353-466 | the invariant holds after any sequence of key events |
| FormProperties.AsciiValid | src/main.rs:142-150 | bytes below 0x80 are well-formed UTF-8, each byte a character of its own |
| FormProperties.ListedNamesValid | src/main.rs:136-137 | every pushed name is well-formed UTF-8 (`to_str` succeeded) |
| FormProperties.InitialInvariant | src/main.rs:132-162 | `App::new` builds a state that keeps the invariant |
| FormProperties.RunAppend | src/main.rs:353-466 | running two event sequences in turn is running their concatenation, unless the first ended the loop |
| FormProperties.RunOne | src/main.rs:353-466 | one event runs as one step |
| FormProperties.RunSnoc | src/main.rs:353-466 | one more event after a run that goes on is one more step |
| FormProperties.RunEnded | src/main.rs:353-466 | once the loop has ended, later events change nothing |
| FormProperties.RunStops | src/main.rs:353-466 | a first event that ends the loop is where the run ends |
| FormProperties.RunStopsAtFinish | src/main.rs:462 | Enter or Esc with no overlay ends the loop with the form unchanged, whatever follows |
| FormProperties.FocusRing | src/main.rs:397-405 | five Tabs return to the starting field, and no fewer do |
| FormProperties.TabRotatesFocus | src/main.rs:397-405 | Tab changes the focus and nothing else |
| FormProperties.TypeSelection | src/main.rs:406-415 | Up and Down move the selection by at most one, only with Type focused, stay in range and never wrap |
| FormProperties.TypeFocusIgnoresText | src/main.rs:417-459 | with Type focused, editing keys and characters other than `+` change nothing |
| FormProperties.EditGoesToFocusedField | src/main.rs:417-459 | with a text field focused, an editing key or character goes to that field only |
| FormProperties.PlusOpensOverlay | src/main.rs:450 | `+` opens an empty new-type overlay from Type, a new-scope overlay from Scope, and does nothing elsewhere; it never reaches a text field |
| FormProperties.OverlayCapturesInput | src/main.rs:384-393 | with the overlay open, every key but Enter and Esc edits only the overlay's input |
| FormProperties.OverlayEscape | src/main.rs:363-365 | Esc closes the overlay and changes nothing else |
| FormProperties.OverlayBlankName | src/main.rs:366-368 | Enter on a whitespace-only name closes the overlay, saves nothing and changes nothing else |
| FormProperties.OverlayWriteFails | src/main.rs:366-379 | on a filesystem that refuses writes, a name to save ends the loop with an error and the form unchanged, exactly unless it is a new type whose path exists already in an existing `components/` |
| FormProperties.OverlayNewType | src/main.rs:370-374 | a new type goes on exactly when `components/` can be made and its path exists or can be created; then it is trimmed, appended, selected and present on disk, and nothing else changes; otherwise the loop ends with an error and nothing changes |
| FormProperties.OverlayTypeNul | src/main.rs:199-204 | a new type whose trimmed name holds a NUL byte ends the loop with an error and the form unchanged, on every filesystem |
| FormProperties.StepKeepsNulFree | src/main.rs:361-464 | no key event makes a path with a NUL byte appear on disk |
| FormProperties.RunKeepsNulFree | src/main.rs:353-466 | nor does any sequence of events |
| FormProperties.ExampleNulType | src/main.rs:199-204 | the new type `a<NUL>b` ends the loop with an error |
| FormProperties.ExampleExistingType | src/main.rs:199-206 | on a read-only filesystem, adding `feat` again goes on when `components/` and its marker exist, because nothing has to be created |
| FormProperties.ExampleNoComponentsDir | src/main.rs:199-206 | adding the type `/tmp` ends the loop with an error when `components/` cannot be made, although `/tmp` exists: `create_dir_all` comes first |
| FormProperties.OverlayNewScope | src/main.rs:375-379 | a new scope goes on exactly when the log can be appended to; then it becomes the scope field with the cursor at its end, the focus moves to Description, and the name is appended to the scope log as one line; otherwise the loop ends with an error and nothing changes |
| FormProperties.LoadTypesDefaults | src/main.rs:141-151 | an unreadable listing or one with no usable name gives the seven defaults in order |
| FormProperties.LoadTypesListed | src/main.rs:133-140 | otherwise the types are exactly the listed names |
| FormProperties.ListedNamesMembers | src/main.rs:134-139 | a name is listed exactly when a readable entry has it as a UTF-8 file name |
| FormProperties.ListedNamesAppend | src/main.rs:135-138 | names are pushed in listing order |
| Form.Prefix | src/main.rs:170-174 | the first line of the message; `PrefixLayout` states its bytes and `PrefixValid` its well-formedness |
| Form.CommitMessage | src/main.rs:164-185 | `commit_message`; `MessageParagraphs`, `MessageLayout`, `PrefixLayout`, `MessageValid` and the three examples state its properties |
| FormProperties.MessageParagraphs | src/main.rs:164-185 | the message is the prefix line, then the non-empty body and footer, joined by blank lines |
| FormProperties.MessageLayout | src/main.rs:170-184 | the message starts with its prefix, and the body and footer each add their length plus two line feeds only when not empty |
| FormProperties.PrefixLayout | src/main.rs:170-174 | the prefix is `type: desc` or `type(scope): desc`, byte for byte, with no trimming |
| FormProperties.PrefixValid | src/main.rs:170-174 | the prefix of well-formed fields is well-formed |
| FormProperties.MessageValid | src/main.rs:164-185 | the message of a state that keeps the invariant is well-formed UTF-8 |
| FormProperties.ExampleShort | src/main.rs:170-171 | type and description only give `feat: add x` |
| FormProperties.ExampleScoped | src/main.rs:172-173 | a scope goes in parentheses: `feat(api): add x` |
| FormProperties.ExampleFull | src/main.rs:176-183 | body and footer each follow a blank line |
| Tui.Edit | src/main.rs:384-390 | an editing key is applied to a text input object as `EditKey` prescribes |
| Tui.LoadTypes | src/main.rs:133-151 | the listing loop returns `Form.LoadTypes` of the listing |
| Tui.App.constructor | src/main.rs:132-162 | `App::new` builds `Form.Initial` of the listing, with four distinct new inputs |
| Tui.App.State | src/main.rs:120-129 | the fields of the object, read as a `Form.FormState` value |
| Tui.App.Valid | src/main.rs:120-129 | the text inputs are distinct objects, and `State()` keeps `Form.Invariant`; every method keeps it |
| Tui.App.CurrentInput | src/main.rs:318-326 | no input exactly when Type has the focus; otherwise one of the four fields |
| Tui.App.CurrentInputIsFocused | src/main.rs:318-326 | the input handed out holds the contents the model calls focused |
| Tui.App.MaybeOpenOverlay | src/main.rs:328-340 | the new state is `Form.OpenOverlay` of the old one |
| Tui.App.CloseOverlay | src/main.rs:364 | only the overlay changes, to none |
| Tui.App.AddType | src/main.rs:372-373 | the name is appended and selected; the overlay closes |
| Tui.App.SetScope | src/main.rs:377-378 | the scope field becomes `TextInput::from(name)` and the focus Description; the overlay closes |
| Tui.App.ConfirmOverlay | src/main.rs:366-383 | the new state, outcome and disk are `Form.ConfirmOverlay` of the old ones |
| Tui.App.EditOverlay | src/main.rs:384-391 | only the overlay's input changes, as `EditKey` prescribes |
| Tui.App.OverlayKey | src/main.rs:361-394 | the new state, outcome and disk are `Form.OverlayKey` of the old ones |
| Tui.App.EditFocused | src/main.rs:417-447 | the new state is `Form.EditFocused` of the old one |
| Tui.App.CommitMessage | src/main.rs:164-185 | the message built from the fields is `Form.CommitMessage` of the state |
| Tui.App.NextField | src/main.rs:397-405 | the new state is what `Form.FormKey` gives for Tab |
| Tui.App.SelectPrevious | src/main.rs:406-410 | the new state is what `Form.FormKey` gives for Up |
| Tui.App.SelectNext | src/main.rs:411-415 | the new state is what `Form.FormKey` gives for Down |
| Tui.App.FormKey | src/main.rs:396-464 | the new state is `Form.FormKey` of the old one |
| Tui.App.Step | src/main.rs:361-464 | the new state, outcome and disk are `Form.Step` of the old ones; the invariant is kept |
| Tui.App.RunOnce | src/main.rs:353-466 | one more turn of the loop extends the run by one event |
| Tui.App.Run | src/main.rs:353-466 | the loop over a sequence of events ends in `Form.Run` of the start state |

## Left out

- `draw_ui` (src/main.rs:220-315) is left out: it renders with ratatui and changes no state.
- Terminal setup and teardown are left out, and so are `event::poll` and `event::read` (src/main.rs:343-358, 469-479). Key events arrive as the `keys` parameter of `Run`. Only the key code matters, as in the source. Non-key events and poll timeouts are ignored, so they are not modelled.
- The error contexts attached by `anyhow` are left out. A failed persistence write is the outcome `Failed`: the state and the disk stay as they were, and the loop ends. The terminal is not restored on that path, which terminal I/O would show and this model does not.
- `fs::read_dir` (src/main.rs:134) is not modelled. Its result is the `listing` parameter, and entries whose `Result` is an error are `Unreadable`.
- `persist_new_type` and `persist_new_scope` (src/main.rs:199-217) are modelled only by their effect: a name added to `present`, and the name plus a line feed appended to a byte log. Partial failures, such as a directory created before a failed file write, are not modelled. `componentsDir`, `creatable` and `scopeAppendable` are fixed answers: a saved scope that creates `.pre-form-git` does not change them.
- Form.Disk: which type names exist or can be created is given by the filesystem, not computed. `present` and `creatable` are sets of names, not of resolved paths, so they do not capture that two names can reach the same file: after `./x` is created, `x` exists too, but only `./x` is added to `present`. How a name resolves (`.`, `..`, a `/`, an absolute path, a name over the filesystem's length limit) decides which set it is in. Only the NUL byte, which every path refuses, is stated as a rule (`Form.NulFree`).
- `preform_dir`, `components_dir` and `scopes_file` (src/main.rs:189-197) are not modelled. They only build paths, which `Disk` abstracts away.
- The final `fs::write` of the message, `install_hook`, `main` and the command-line parsing (src/main.rs:21-35, 483-533) are left out. They are I/O and library glue.
- `Form.Ascii`: it gives the UTF-8 bytes of ASCII strings only. From U+0080 to U+00FF a character becomes its one Latin-1 byte, not its UTF-8 encoding, and above U+00FF it becomes 0. It is applied only to the ASCII literals of the default types and the worked examples.
- Rust's `usize` cursor and index arithmetic cannot overflow here: every value is bounded by a length in memory. The model uses unbounded `nat`.
- `Focus` and `Key` carry only what the loop distinguishes. Every other key code is `Key.Other`.

## Behaviour worth knowing

These follow from the source and are proved by the model:
- `+` never reaches a text field, even with Scope, Description, Body or Footer focused.
- Inside the overlay, `+` is typed like any other character.
- Adding a type does not check for duplicates, so the same name can appear twice in the list.
- With no overlay open, Enter and Esc both finish the form.
- Up and Down never wrap around the list.
- A new type whose name holds a NUL byte cannot be saved, so the form ends with an error on every filesystem.
- On a read-only filesystem, a new type whose marker exists already is still added to the list.
- Saving a new type fails when `components/` cannot be made, even when the path the name resolves to exists.
