# greasygl core in Dafny

A model of two pieces of a minimal Wayland client:

- **Registry** (`registry.dfy`): the client's list of the globals the
  compositor advertises through the `wl_registry` object. The list starts
  empty. A `global` event appends a `{name, interface, version}` record
  without looking for duplicates. A `global_remove` event deletes the first
  record whose name matches, and panics when there is none. Every other
  registry event is ignored. The list is a `seq<Global>`, one event is a pure
  transition `Handle`, and a stream of events is folded by `Replay`. A panic is
  the `Panicked` outcome.
- **CStr** (`cstr.dfy`): `cstr_to_string`, which reads a NUL-terminated C
  string byte by byte from index 0. Each byte before the first NUL becomes the
  character with that code point. The pointer is an `array<U8>` that must hold
  a NUL, as the function's safety comment demands. Its contract equates it
  with a recursive reference `Decode`, which an `Encode` back into bytes
  inverts.

A more forgiving client would report a `global_remove` for an unknown name and
leave the list unchanged. This code unwraps the result of `position` and so
panics. The model follows the code: `Handle` yields `Panicked` in that case,
and `Registry.RemoveUnknownPanics` states it. A `global` whose name is already
present is appended without deduplication; `Registry.AddKeepsDuplicates`
states it.

## Model

| member | source | states |
|---|---|---|
| Registry.New | src/main.rs:23-27 | a new registry holds no global of any name; its set of names is empty |
| Registry.Position | src/main.rs:54-58 | finds an index exactly when some global has the name, and the index found is the least one holding that name |
| Registry.Add | src/main.rs:46-50 | the pushed record is last, the length grows by one and every earlier record stays at its index |
| Registry.RemoveAt | src/main.rs:59 | removing index i shortens the list by one, keeps the records before i, shifts the ones after i down by one, and loses exactly the record at i from the multiset |
| Registry.Handle | src/main.rs:39-62 | an ignored event leaves the list as it was; `global` appends exactly the event's three fields after an unchanged prefix; `global_remove` panics if and only if the name is absent, and otherwise equals deleting the first match |
| Registry.DeleteFirstRemovesFirstMatch | src/main.rs:54-59 | dropping the first global with the name, walking the list, is the slice `gs[..i] + gs[i+1..]` at the least matching index i |
| Registry.RemoveUnknownPanics | src/main.rs:54-58 | a `global_remove` for a name not in the list panics |
| Registry.RemoveDropsFirstMatch | src/main.rs:52-60 | a `global_remove` of a present name succeeds, drops the record at the least matching index, keeps the other records in order, and the length drops by one |
| Registry.AddKeepsDuplicates | src/main.rs:45-50 | a `global` event adds one more record of its name, so a name already present ends up at least twice |
| Registry.AddThenRemoveRestores | src/main.rs:46-59 | a `global` event for an absent name followed by its `global_remove` gives back the original list |
| Registry.AddFreshKeepsUnique | src/main.rs:45-50 | appending a fresh name keeps names unique and adds exactly that name to the set of names |
| Registry.RemoveKeepsUnique | src/main.rs:53-59 | removing the first match from a list with unique names keeps names unique and removes exactly that name from the set of names |
| Registry.ReplayTracksLiveNames | src/main.rs:39-62 | for an event stream that adds only absent names and removes only present ones, replaying never panics, keeps names unique and leaves exactly the names added and not removed |
| Registry.ClockScenario | src/main.rs:39-62 | adding globals 1 and 2 of interface `clock` version 1 and removing 1 leaves only global 2 |
| CStr.CharOf | src/lib.rs:14 | a byte becomes the character whose code point is the byte's value |
| CStr.FirstNul | src/lib.rs:9-13 | the index found holds a NUL and no byte before it is NUL |
| CStr.Decode | src/lib.rs:6-18 | the decoded text is as long as the index of the first NUL, and each character is the character of the byte at the same index |
| CStr.CStrToString | src/lib.rs:6-18 | the result has the length of the prefix before the first NUL, holds the character of each byte of that prefix, contains no NUL character and equals the reference decoding; its loop invariant `index <= end` keeps every read at or before the first NUL |
| CStr.DecodeHello | src/lib.rs:29-47 | the buffer `h e l l o NUL` decodes to `"hello"` |
| CStr.LeadingNulIsEmpty | src/lib.rs:9-13 | a buffer whose first byte is NUL decodes to the empty string |
| CStr.TailIsIgnored | src/lib.rs:11-13 | two buffers that agree up to and including the first NUL decode to the same text, so bytes after it do not matter |
| CStr.DecodeEncode | src/lib.rs:9-17 | decoding the C string of a text of characters in 1..255 gives the text back |
| CStr.EncodeDecode | src/lib.rs:9-17 | encoding the decoded text gives back the buffer up to and including its first NUL |

## Left out

- `main` (src/main.rs:71-82): connecting through the environment, asking the display for the registry and the roundtrip are socket I/O in the `wayland_client` library.
- `WlRegistry::parse_event` (src/main.rs:37): the protocol codec is outside the model; events arrive already typed as `Event`, so a decoding failure is not modelled.
- The `Mutex`, the `Arc` and the lock unwraps (src/main.rs:19-20, 45, 53): they serialise access to the list and do not change what one event does to it.
- `destroyed` (src/main.rs:66-68) and the `None` returned by `event`: the handler never creates child objects and the registry is never destroyed while in use.
- Pointer arithmetic and the `bytemuck` casts (src/lib.rs:10-11): the pointer is an array that holds the terminating NUL; the signedness of `c_char` is not modelled, each byte is read as its unsigned value, which is what the cast through `u8` gives.
- A buffer without a NUL: the source leaves it undefined, so `CStr.CStrToString` requires a NUL.
- CStr.CStrToString: the Rust `String` is modelled by its characters, not by its UTF-8 bytes, so the length in its contract counts characters. A byte in 0x80-0xFF becomes one character that `String` stores as two bytes; on the ASCII input the safety comment at src/lib.rs:3-5 asks for, the character count equals the byte length.
- Lookup of a global by interface and version, and removal of an unknown name as a no-op: the code has neither.
