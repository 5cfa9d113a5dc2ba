# piguard's WireGuard configuration model, in Dafny

piguard keeps a WireGuard configuration file (`wg0.conf` style) in memory
as two classes:

- `WGPeer`: an insertion-ordered `str` to `str` map that prints itself as
  a blank line, a `[Peer]` header and one `key = value` line per setting.
- `WGConfig`: one ordered `interface` map, an ordered list of peers and an
  optional file path. It can be loaded from a file by a line-oriented
  state machine, printed, searched for a peer by public key, and saved.

This project models those two classes and proves what they promise.

- `wrappers.dfy`: `Option` and `Result`.
- `pystr.dfy`: `str.strip()`, `str.split(sep)` and `sep.join(...)` on
  strings as sequences of characters.
- `ordered_dict.dfy`: a Python `dict` as its items in insertion order.
  `Put` is `d[k] = v`, `Lookup` is the read, and `PutAll` is a run of
  assignments.
- `wgpeer.dfy`: the class `WGPeer`. Its `vars` field is the dict the
  methods update in place.
- `wgconfig.dfy`: three parts.
  - The loader as a pure state machine: `Step` handles one line, and
    `ParseLines` and `ParseText` handle the file. The state is the
    interface items, each peer's items and the active section (`sec`).
    The section is none, the interface, or the peer at an index. In the
    source `sec` aliases the peer just appended, and an index names the
    same peer.
  - The class `WGConfig`. Its methods `LoadFromText`, `ToString`, `Save`
    and its lookups are proved against those functions.
  - `Open`, the constructor's "load if the file exists" path.
- `roundtrip.dfy`: loading the saved text of a configuration gives back
  its settings. It also gives the rule for a key set twice in one section.
- `link.dfy`: the find-or-append the command-line tool performs around
  `find_peer`, both as written and with the lookup returning its match.

File access is replaced by text. Loading takes the file's contents, and
`Open` receives them as `existing` when the file exists. `Save` returns
the path it would open and the full contents it would write.

`find_peer` (piguard/wgconfig.py:22-27) scans the peers with
`next(...)` for the first whose `PublicKey` equals the key, but discards
what it finds, so it returns `None` whether a peer matches or not.
Reading `peer["PublicKey"]` on a peer that lacks the key, before any
match, raises `KeyError`. Both callers (piguard/main.py:124-127 and
147-150) bind the result and append a new peer only `if not peer:`.
A `WGPeer` is always truthy, so they expect the matching peer back. The
model follows the code as written. It models the lookup that returns the
match beside it, as the corrected version (see Findings).

## Model

| member | source | states |
|---|---|---|
| `WgPeer.WGPeer.constructor` | piguard/wgpeer.py:4-5 | a new peer holds no settings |
| `WgPeer.WGPeer.Set` | piguard/wgpeer.py:7-8 | afterwards `peer[key]` is the value; every other key reads as before; the items are `d[key] = val` applied to the old ones, so keys stay distinct |
| `WgPeer.WGPeer.Get` | piguard/wgpeer.py:10-11 | succeeds exactly for a key that was set, with the value stored under it; otherwise raises `KeyError(key)`, with no default |
| `WgPeer.WGPeer.ToString` | piguard/wgpeer.py:13-19 | the text is `"\n[Peer]\n"` followed by `key = value\n` for each setting in insertion order; the peer is not changed |
| `OrderedDict.Put` | piguard/wgpeer.py:7-8 | `d[k] = v`: `k` then holds `v`; every other key holds what it held; an existing key keeps its position, a new key is appended; distinct keys stay distinct |
| `OrderedDict.Lookup` | piguard/wgpeer.py:10-11 | a value is found exactly when the key is among the keys, and the value found is paired with that key in the items |
| `OrderedDict.LookupItem` | piguard/wgpeer.py:10-11 | in a dict with distinct keys, looking up an item's key gives that item's value |
| `OrderedDict.LastValue` | piguard/wgconfig.py:57 | the value of the last item with the key is defined exactly for the keys present, and is one of that key's items |
| `OrderedDict.PutAllLookup` | piguard/wgconfig.py:57 | after a run of assignments, a key that was assigned holds the last value assigned to it; any other key keeps its old value |
| `OrderedDict.NewKeys` | piguard/wgconfig.py:57 | the keys a run of assignments adds: exactly the assigned keys not already present, each once |
| `OrderedDict.PutAllKeys` | piguard/wgconfig.py:57 | after a run of assignments the keys are the old keys in their order, followed by the new keys in the order of their first assignment; membership is the old keys or the assigned ones; no key repeats |
| `OrderedDict.PutAllFresh` | piguard/wgconfig.py:57 | assigning keys that are all new, in order, into a dict appends exactly those items in that order |
| `PyStr.Strip` | piguard/wgconfig.py:40 | the result is the infix of the line with only whitespace around it, and it neither starts nor ends with whitespace |
| `PyStr.Split` | piguard/wgconfig.py:56 | joining the pieces with the separator gives back the string; no piece contains the separator; there is at least one piece; the cuts are made left to right without overlap, each at the first occurrence of the separator in what remains |
| `PyStr.IndexOf` | piguard/wgconfig.py:56 | gives the leftmost occurrence of the separator, and none exactly when the separator does not occur |
| `PyStr.SplitJoinChar` | piguard/wgconfig.py:39 | splitting on a character undoes joining on it when no piece holds that character |
| `WgConfig.Assign` | piguard/wgconfig.py:57 | `sec[key] = value`: with the interface active, the interface becomes `d[key] = value` of the old one and the peers are unchanged; with a peer active, that peer alone becomes `d[key] = value` of its old settings and the interface is unchanged; the section stays selected and distinct keys stay distinct |
| `WgConfig.Step` | piguard/wgconfig.py:40-57 | one line leaves a consistent state; it appends exactly one peer when the line strips to `[Peer]` and none otherwise; a selected peer is the one already selected or the new last one |
| `WgConfig.Setting` | piguard/wgconfig.py:56-57 | a non-header line fails exactly when it does not split on `" = "` into two pieces or no section is active; otherwise its two pieces are assigned into the active section as key and value, the section and the peer count are kept and keys stay distinct |
| `WgConfig.StepFailure` | piguard/wgconfig.py:56-57 | a line raises exactly when it strips to no header and to something non-blank, and either does not split into two pieces (`ValueError`) or no section is active (`TypeError`); the split is checked first |
| `WgConfig.ParseLines` | piguard/wgconfig.py:37-57 | the loop over the lines, stopping at the first line that raises; every state it returns keeps the section naming a peer that exists |
| `WgConfig.ParseText` | piguard/wgconfig.py:29-39 | loading a file's text; a successful load appends one peer per line that strips to `[Peer]`, and keeps every map's keys distinct when they were |
| `WgConfig.ParseLinesConcat` | piguard/wgconfig.py:39-57 | loading two runs of lines is loading the first and then, if it succeeded, the second from where the first left off |
| `WgConfig.StepInterfaceHeader` | piguard/wgconfig.py:42-44 | `[Interface]` selects the interface map and changes nothing else |
| `WgConfig.StepBlank` | piguard/wgconfig.py:46-48 | a blank line deselects the section and changes nothing else |
| `WgConfig.StepPeerHeader` | piguard/wgconfig.py:50-53 | `[Peer]` appends one empty peer and selects it |
| `WgConfig.InterfaceLineSelects` | piguard/wgconfig.py:42-44 | a repeated `[Interface]` header re-selects the same interface map, whatever was active |
| `WgConfig.BlankLineDeselects` | piguard/wgconfig.py:46-48 | after a blank line the rest loads with no section active |
| `WgConfig.PeerLineAppends` | piguard/wgconfig.py:50-53 | after `[Peer]` the rest loads with one more, empty peer, which is selected |
| `WgConfig.ParseLinesPeerCount` | piguard/wgconfig.py:50-53 | a successful load appends exactly one peer per `[Peer]` line, and every map keeps its keys distinct |
| `WgConfig.MalformedLineFails` | piguard/wgconfig.py:56 | a non-header line that does not split on `" = "` into two pieces fails with `ValueError`, whichever section is active |
| `WgConfig.OrphanLineFails` | piguard/wgconfig.py:37-57 | a well-formed `key = value` line with no active section (before any header, or after a blank line) fails with `TypeError` |
| `WgPeer.PeerText` | piguard/wgpeer.py:13-19 | `str(peer)` is the lines `""`, `[Peer]` and one `key = value` per setting in insertion order, each ended by a newline |
| `WgConfig.PeersText` | piguard/wgconfig.py:64 | the peers' blocks, one after another in list order, are the peers' lines, each ended by a newline |
| `WgConfig.ConfigText` | piguard/wgconfig.py:59-64 | `str(config)` is the lines `[Interface]`, the interface's `key = value` lines, then every peer's lines, each ended by a newline |
| `WgConfig.NextMatch` | piguard/wgconfig.py:25 | the generator's `next`: the index of the first peer whose `PublicKey` equals the key, `StopIteration` only when every peer has a `PublicKey` and none matches, and `KeyError` only when a peer without a `PublicKey` is reached before any match |
| `WgConfig.MissingKeyRaises` | piguard/wgconfig.py:25 | a peer without a `PublicKey` reached before any match makes the scan raise |
| `WgConfig.FirstMatchFound` | piguard/wgconfig.py:25 | the scan yields the first matching peer |
| `WgConfig.WGConfig.constructor` | piguard/wgconfig.py:7-10 | a new configuration has an empty interface, no peers and the given path |
| `WgConfig.WGConfig.AppendPeer` | piguard/wgconfig.py:51-52 | `self.peers.append(WGPeer())`: one fresh, empty peer is added at the end, and nothing else changes |
| `WgConfig.WGConfig.AssignInto` | piguard/wgconfig.py:57 | `sec[key] = value` changes exactly the active map, as `Assign` says |
| `WgConfig.WGConfig.SetInInterface` | piguard/wgconfig.py:57 | only the interface's settings change |
| `WgConfig.WGConfig.SetInPeer` | piguard/wgconfig.py:57 | only the selected peer's settings change, as `d[key] = value` |
| `WgConfig.WGConfig.LoadLine` | piguard/wgconfig.py:40-57 | one turn of the loop: the error raised, or the new state and section, are those `Step` gives |
| `WgConfig.WGConfig.LoadSetting` | piguard/wgconfig.py:56-57 | a `key = value` line is split, then assigned or refused, as `Setting` says |
| `WgConfig.WGConfig.LoadTurn` | piguard/wgconfig.py:39-57 | the loop's turn at one line keeps what the whole load comes to |
| `WgConfig.WGConfig.LoadLines` | piguard/wgconfig.py:37-57 | the loop over the lines fails exactly when `ParseLines` does, with its error; on success the interface and the peers' settings are the ones it computes, and the peers already present keep their places |
| `WgConfig.WGConfig.LoadFromText` | piguard/wgconfig.py:29-57 | the file's text is stripped, split on newlines and loaded, exactly as `ParseText` says |
| `WgConfig.WGConfig.ToString` | piguard/wgconfig.py:59-73 | `str(config)` is `"[Interface]\n"`, the interface's `key = value` lines in order, then every peer's block in list order |
| `WgConfig.WGConfig.JoinPeers` | piguard/wgconfig.py:64 | `"".join(str(peer) for peer in self.peers)` is the peers' blocks in list order |
| `WgConfig.WGConfig.FindPeer` | piguard/wgconfig.py:22-27 | never returns a peer; raises `KeyError('PublicKey')` exactly when `public` is truthy and a peer without a `PublicKey` comes before any match |
| `WgConfig.WGConfig.FindPeerFirstMatch` | piguard/wgconfig.py:22-27 | a peer returned is the first whose `PublicKey` equals `public`; nothing is returned exactly for a falsy key or when every peer has a `PublicKey` and none matches; raises exactly when `FindPeer` raises |
| `WgConfig.FindPeerDropsMatch` | piguard/wgconfig.py:22-27 | with a matching peer at index `i`, `find_peer` still gives `None`, while the `next(...)` result is the peer at `i` |
| `WgConfig.WGConfig.Save` | piguard/wgconfig.py:15-20 | writes to `path` when it is truthy, otherwise to the stored path; the contents are `str(self)`; with neither path it fails |
| `WgConfig.Open` | piguard/wgconfig.py:7-13 | with a truthy path and an existing file, the load's outcome and its error; otherwise an empty configuration holding the path |
| `RoundTrip.ItemLineParts` | piguard/wgpeer.py:17 | the line of a safe setting is unchanged by `strip`, is neither blank nor a header, holds no newline, and splits on `" = "` into its key and value |
| `RoundTrip.SectionLinesAssign` | piguard/wgconfig.py:56-57 | while a section is active, the lines of safe settings assign them into it in order, whatever their keys, and nothing fails |
| `RoundTrip.AssignAll` | piguard/wgconfig.py:57 | a run of `sec[key] = value` puts all the items into the active section and changes no other section |
| `RoundTrip.SectionLinesOverwrite` | piguard/wgconfig.py:56-57 | lines of safe settings read into the active section, interface or peer, leave every other section alone; the section keeps its old keys in their places, then gains the new keys in the order they first appear, so a key given twice keeps the place of its first line; each key set holds the value of its last line; others keep theirs; no key repeats |
| `RoundTrip.SectionReadBack` | piguard/wgconfig.py:56-57 | the lines of a serialisable map, loaded into an empty section, rebuild that map |
| `RoundTrip.PeerHeaderLines` | piguard/wgpeer.py:14 | the blank line before `[Peer]` deselects the section, and the header then appends and selects a new peer |
| `RoundTrip.PeerBlockReadBack` | piguard/wgpeer.py:13-19 | one peer's block, loaded from any state, appends exactly that peer and leaves it selected |
| `RoundTrip.PeersReadBack` | piguard/wgconfig.py:64 | the peers' blocks, loaded from any state, append exactly those peers in order and leave the interface alone |
| `RoundTrip.StripConfigText` | piguard/wgconfig.py:35 | stripping the saved text removes only its final newline |
| `RoundTrip.TextSplitsIntoLines` | piguard/wgconfig.py:35-39 | stripping the saved text and splitting it on newlines gives back exactly its lines |
| `RoundTrip.LoadAfterSerialise` | piguard/wgconfig.py:35-64 | loading `str(config)` into a fresh configuration gives back its interface settings and every peer's settings, in order, when every key is non-empty with no leading whitespace, every value is non-empty with no trailing whitespace, and neither holds a newline, `" ="` or `"= "` |
| `Link.FindOrAppend` | piguard/main.py:124-127 | every call that does not raise appends a fresh, empty peer, even when a peer with that key is listed |
| `Link.FindOrAppendFirstMatch` | piguard/main.py:124-127 | with the match returned, a listed peer with the key is reused and the list is unchanged; when the key is falsy, or every peer has a `PublicKey` and none matches, a fresh, empty peer is appended; it raises exactly when `find_peer` does |

## Left out

- piguard/main.py is not part of this model, apart from the find-or-append at lines 124-127 and 147-150. It consists of command-line dispatch, `input()` prompts, calls to `wg`, `systemctl`, `sysctl`, `qrencode` and `cat`, JSON key files and a random default port.
- piguard/install.py and setup.py are not part of this model. They hold package installation and packaging metadata only.
- File I/O and `os.path.isfile`: the loader takes the file's text. `Open` receives that text as `existing` when the file exists. `Save` returns the target path and the contents instead of writing them.
- `_load_from_file(path)` with an explicit path different from `self.path` is not modelled separately. Only the text read matters, and that is `LoadFromText`'s argument.
- PyStr.IsSpace: covers the whitespace `str.strip()` removes in ASCII and Latin-1, plus U+001C to U+001F and U+0085. The other Unicode spaces Python also strips (U+1680, U+2000 to U+200A, U+2028, U+2029, U+202F, U+205F, U+3000) are left out.
- WgConfig.WGConfig.LoadFromText: after a failed load, says only which error was raised and that the earlier peers kept their places. It does not state the interface and peer settings already loaded from the lines before the bad one, which the source leaves in the object.
- WgConfig.WGConfig.LoadLines: after a failure, says no more than `LoadFromText` does about the partial state.
- WgConfig.WGConfig.Save: an empty stored path is returned as the target. In Python, `open("", "w")` raises `FileNotFoundError`, which is file-system behaviour outside this model. Only `open(None)` with no path at all is modelled, as `NoPath`.
- WgConfig.WGConfig.FindPeer: `public` is modelled as an optional string. Truthiness of non-string arguments is not modelled.
- piguard/main.py:51 stores a private key read without `strip()`, so the key ends in a newline. Such a configuration breaks the round-trip precondition: `RoundTrip.LoadAfterSerialise` does not apply to it.
- Settings are modelled as strings only. A Python dict holds any object, and `f"{key} = {val}"` formats whatever it holds. piguard/main.py:39-43 stores the random default `ListenPort` as an `int` when the operator accepts it. Its text is the same as for the decimal string, which is what the model stores.
- WgConfig.WGConfig.AssignInto and WgConfig.WGConfig.SetInPeer: these require the selected peer to be listed once in `peers`. The loader only assigns into a peer it has just appended, so this always holds there. An object listed twice in `peers` by outside code is allowed everywhere else: `ToString`, `JoinPeers`, `FindPeer`, `FindPeerFirstMatch` and `Save` read each entry of the list as it is.

## Findings

| source | as written | input that shows it | evidently intended | confidence | as-written member | corrected member |
|---|---|---|---|---|---|---|
| piguard/wgconfig.py:22-27 | `find_peer` evaluates `next(...)` and discards it, so it returns `None` even when a peer matches. The find-or-append in piguard/main.py:124-127 therefore appends a duplicate peer every time a client is linked again | peers `[{"PublicKey": "k"}]`, `public = "k"`: the result is `None` instead of that peer | return the first peer whose `PublicKey` equals `public` (`return next(...)`) | not executed | `WgConfig.WGConfig.FindPeer` | `WgConfig.WGConfig.FindPeerFirstMatch` |
