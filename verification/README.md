# A verified model of a small Redis-like server: RESP codec and command engine

This project models the two pure cores of a minimal in-memory key-value
server written in Python, and proves properties of that model in Dafny.

* **The RESP codec** (`src/resp.py`). `serialize` maps a Python value to wire
  text: `None`, `str`, `int`, `list` and an exception. `deserialize` parses
  the text back. Here they are `Resp.Encode` and `Resp.Decode`. The decoder
  is modelled as written, except that `int()` is modelled only on canonical
  decimal text (`Text.ReadInt`; see "Left out"). Inside an array it skips past each element
  by re-encoding the decoded element and dropping that many characters. A
  simple-string or integer frame reads everything up to the last two
  characters of *all* the remaining input. So the round trip holds for
  `None`, strings and nested lists of them, and for a standalone integer. It
  fails for an integer that is followed by more input inside an array
  (`Resp.IntBeforeMoreFails`).
* **The command engine** (`src/server.py`). This is the `if`/`elif` chain of
  `handle_client` together with `cleanup_expired_keys`, recast as a pure step
  `Engine.Execute(cmd, store, now)`. The step sweeps expired keys first
  (`Memory.Sweep`). It then dispatches on the exact command name and returns
  the reply together with the new store. The store is Python's `memory` dict,
  modelled as an insertion-ordered map (`Dict.Dict`) because `KEYS` lists
  keys in insertion order. A key holds a bare integer (`Num`), a bare list
  (`Lst`), or a record `Rec(value, expiry)`. SET writes the record; EXPIRE
  writes it by wrapping a bare integer or list.
* **Replies** (`Engine.Reply`). A reply is `Send(text)` with the exact text
  the server writes. It is `Silent` for the LPUSH/RPUSH `continue` on a
  non-list key, where nothing is written. It is `Fault` when the Python code
  raises and the connection handler ends; the sweep has already happened by
  then. It is `Persist` for SAVE, whose file I/O is not modelled. Where
  the server writes a frame for a value (the integer replies, LRANGE, KEYS,
  GET of a string, and the unknown-command error), the contracts state the
  reply as `Resp.Encode` of that value, which ties the engine to the codec.
  SET and FLUSHDB reply with the fixed text `+OK`. GET on a record that
  wraps a list writes a frame whose declared length is the item count, so
  it is not the encoding of any value.

The model follows the code where the code differs from an idealised Redis:

* INCR and DECR overwrite anything that is not a bare integer with 1 or -1,
  including a string set by SET. There is no type error
  (`Laws.IncrOverwritesString`).
* LPUSH and RPUSH on a key of another shape send nothing.
* LRANGE clamps a negative start to 0. Its final Python slice wraps a
  still-negative end once, so `LRANGE k 0 -7` on five elements returns four
  (`Laws.RangeNegativeEndWraps`).
* Missing or malformed arguments raise instead of producing an arity error.
* GET on a bare value, or on a record that wraps an integer, raises.
* GET on a record that wraps a list replies with a bulk string. Its declared
  length is the item count, and its body is Python's `str()` of the list.
* TTL never reports 0.

Strings are sequences of Unicode characters, so the lengths the codec writes count characters, as Python's `len` does on a `str`.

Modules: `Wrappers` (Option, Result); `Text` (Python's `str(int)`, `int(str)`,
slicing, `str.index`, `repr`); `Resp`; `Dict`; `Memory` (entries and the
sweep); `Engine` (the commands and `Execute`); `Laws` (properties relating
several commands).

## Model

| member | source | states |
|---|---|---|
| Resp.Encode | src/resp.py:1-14 | every frame `serialize` writes is at least three characters, ends with CRLF, and starts with `$` exactly for None and strings, `:` for integers, `*` for lists and `-` for exceptions; `Resp.RoundTrip` is its inverse |
| Resp.RoundTrip | src/resp.py:1-48 | `deserialize(serialize(v)) == v` for every value built from None, strings (including ones containing CRLF) and nested lists |
| Resp.DecodeEncodePrefix | src/resp.py:29-48 | the same round trip with any text after the encoding; the array loop depends on this, since each element is decoded from all that remains |
| Resp.DecodeItemsEncodeAll | src/resp.py:41-48 | the array loop, given the concatenated encodings of `n` such values followed by anything, returns exactly those `n` values |
| Resp.IntRoundTrip | src/resp.py:27-28 | a standalone integer frame `":"+n+"\r\n"` decodes to `n` |
| Resp.IntFollowedFails | src/resp.py:27-28 | an integer frame followed by another frame (at least three characters, starting with a type character) fails: `int()` receives the CRLF and the next frame's type character |
| Resp.IntBeforeMoreFails | src/resp.py:44-46 | a two-element array whose first element is an integer does not decode |
| Resp.ErrRaises | src/resp.py:25-26 | an error frame raises with exactly the text between `-` and the final CRLF |
| Resp.SimpleString | src/resp.py:23-24 | `"+"+t+"\r\n"` decodes to the string `t` |
| Resp.DecodeBulk | src/resp.py:29-34 | a bulk frame fails exactly when its header does, with the header's error; it decodes to None exactly when the declared length is -1, and otherwise to a string |
| Resp.BulkTakesAtMostLength | src/resp.py:29-34 | a bulk frame of declared length `len >= 0` yields `min(len, available)` characters, a prefix of the text after the first CRLF; the rest is ignored |
| Resp.NullFrames | src/resp.py:29-38 | `"$-1\r\n"` and `"*-1\r\n"` both decode to None |
| Resp.UnknownPrefix | src/resp.py:49-50 | a message starting with any character other than `+ - : $ *` is rejected |
| Resp.Decode | src/resp.py:16-50 | a successful decode never contains an exception; empty input fails with "Empty message", and that failure arises only from empty input or inside an array |
| Resp.DecodeArray | src/resp.py:35-48 | an array frame decodes to None or to a list, never containing an exception |
| Resp.DecodeItems | src/resp.py:41-48 | the array loop returns exactly `count` elements (none for a negative count), none of them an exception |
| Resp.HeaderCrlf | src/resp.py:30-33 | the header of a frame `serialize` writes ends at the first CRLF, and its number is read back |
| Text.ShowInt | src/resp.py:8 | `str(n)` starts with a minus sign exactly when `n` is negative, followed by decimal digits with no leading zero unless `n` is 0 |
| Text.ReadInt | src/resp.py:28 | `int()` succeeds exactly on an optional sign followed by at least one digit, and the sign of the result follows the text |
| Text.ReprList | src/server.py:168 | `str()` of a list of strings is bracketed, and it is `[]` exactly for the empty list |
| Text.ReadShowInt | src/resp.py:8 | the decimal text written for an integer is read back by `int()` as the same integer |
| Text.FindCrlf | src/resp.py:30 | `str.index("\r\n")` finds the first CRLF, or fails exactly when there is none |
| Text.Slice | src/resp.py:24 | a Python slice is a contiguous run of the input that starts at the normalised start index; it is empty when the normalised stop does not lie past the start |
| Memory.Sweep | src/server.py:43-48 | after the sweep a key remains exactly when its entry is not a record whose truthy deadline is before `now`; survivors keep their values, and the dict stays well formed |
| Memory.SweepLeavesNoExpired | src/server.py:43-48 | no expired record survives a sweep |
| Memory.SweepIdempotent | src/server.py:43-48 | a second sweep at the same time removes nothing |
| Memory.SweepMonotone | src/server.py:43-48 | a later sweep keeps no key that an earlier one removed |
| Dict.Put | src/server.py:156 | assignment updates the value; a new key goes to the end of the order, a present key keeps its place |
| Dict.Remove | src/server.py:47-48 | deletion removes exactly the key and keeps the dict well formed |
| Dict.RemoveKeepsOrder | src/server.py:47-48 | deletion splices the key out of the insertion order and leaves the other keys in place; deleting an absent key leaves the order unchanged |
| Dict.FilterKeepsOrder | src/server.py:47-48 | deleting several keys keeps the remaining keys in their old relative order |
| Dict.SizeIsOrderLength | src/server.py:199-200 | `len(memory)` equals the number of keys iterated |
| Engine.Exists | src/server.py:70-72 | EXISTS replies the integer frame 1 when the key is present and 0 otherwise, and raises without a key |
| Engine.DelKeys | src/server.py:75-77 | DEL removes every named key, and its count is the number of distinct named keys that were present |
| Engine.Bump | src/server.py:80-95 | INCR/DECR store `n±1` on a bare integer and ±1 on anything else, and reply with that integer's frame |
| Engine.Push | src/server.py:98-117 | LPUSH puts the values in reverse before the old list, RPUSH puts them in order after it, and the reply is the new length; any other shape is left alone and nothing is sent |
| Engine.Reversed | src/server.py:105 | `list(reversed(xs))` has element `i` equal to `xs[len-1-i]` |
| Engine.RangeOf | src/server.py:125-134 | the LRANGE result is a contiguous run of the list, starting at the clamped start, no longer than the list, and empty when start is at least the length; `Laws.RangeClosedForm` fixes where it ends |
| Engine.Lrange | src/server.py:120-139 | LRANGE replies with the array encoding of the range, or of the empty list for a missing or non-list key, and raises on missing or non-integer bounds |
| Engine.SetDeadline | src/server.py:148-154 | `EX n` gives deadline `now+n`, `PX n` gives `now+n/1000`, any other option gives none; a missing or bad count raises |
| Engine.Set | src/server.py:146-157 | SET stores a record holding the string with that deadline and replies `+OK` |
| Engine.Get | src/server.py:160-170 | GET replies None for a missing or expired key and deletes the expired one; it replies with the bulk encoding of a record's string; it raises on a bare value or a wrapped integer |
| Engine.Trunc | src/server.py:178 | `int()` of a float truncates toward zero |
| Engine.Ttl | src/server.py:173-181 | TTL replies -2 for a missing key, -1 without a truthy deadline, and otherwise the whole seconds left if at least one, else -1; the reply is never 0 |
| Engine.Expire | src/server.py:184-195 | EXPIRE on a present key sets deadline `now+ttl`, keeping the value (a bare value is wrapped), keeps key order and replies 1; on a missing key it replies 0 and changes nothing |
| Engine.Keys | src/server.py:198-201 | KEYS replies with the array encoding of every key in insertion order, with count equal to the number of keys |
| Engine.BulkArray | src/server.py:135-137 | the array reply LRANGE builds by hand is exactly the codec's encoding of the strings as a list |
| Engine.BulkLinesEncode | src/server.py:135-137 | the bulk lines built by hand are exactly the codec's encoding of those strings |
| Engine.Execute | src/server.py:63-206 | every command leaves the store a well-formed dict |
| Laws.UnknownCommandOnlySweeps | src/server.py:66-67 | an unknown name gets the encoding of the error `ERR unknown command`, and the store is exactly the swept store; an empty command raises after the sweep |
| Laws.ExistsIffLive | src/server.py:67-72 | EXISTS replies 1 iff the key is present and not expired, and 0 otherwise |
| Laws.DelRemovesNamed | src/server.py:75-77 | DEL's reply counts the distinct live named keys; all named keys are gone, and every other key keeps its presence and value |
| Laws.DelAbsentIsZero | src/server.py:75-77 | DEL of keys none of which is live replies 0 |
| Laws.FlushDbIdempotent | src/server.py:204-206 | FLUSHDB empties the store, and a second FLUSHDB at any later time yields the same step |
| Laws.SetThenGet | src/server.py:146-168 | after SET, a GET before the deadline (or with no deadline) replies with the value's bulk encoding |
| Laws.SetExThenExpired | src/server.py:146-170 | after `SET k v EX n` and past the deadline, GET replies None and EXISTS replies 0 |
| Laws.SetExStores | src/server.py:146-156 | `SET k v EX n` stores a record holding `v` with deadline `now+n` |
| Laws.ExpireSetsDeadline | src/server.py:184-193 | EXPIRE on a present key replies 1 and stores a record holding the old value with deadline `now+ttl` |
| Laws.TtlOfFreshDeadline | src/server.py:177-179 | TTL at the moment a deadline `now+t` is set reports `t` |
| Laws.ExpireThenTtl | src/server.py:173-195 | `EXPIRE k t` followed by `TTL k` at the same moment reports `t` for every positive `t` |
| Laws.ExpireAbsent | src/server.py:184-195 | EXPIRE on a key that is not live replies 0 and leaves the swept store |
| Laws.DecrUndoesIncr | src/server.py:80-95 | DECR after INCR restores a bare integer, and leaves 0 on any other key |
| Laws.BumpEntries | src/server.py:80-95 | after INCR or DECR the store is the swept store with the key set to the bumped bare integer |
| Laws.IncrLeavesNothingExpired | src/server.py:43-48 | a sweep right after INCR at the same moment removes nothing |
| Laws.IncrOverwritesString | src/server.py:80-86 | INCR on a string set by SET replies 1 and stores the bare integer 1 |
| Laws.LpushReversesRpush | src/server.py:98-117 | on a missing key, LPUSH builds the reverse of what RPUSH builds, RPUSH keeps the values in order, and both reply with the same length |
| Laws.PushOnNonListIsSilent | src/server.py:98-115 | LPUSH/RPUSH on a key of another shape sends nothing and changes only what the sweep changed |
| Laws.GetAfterSweepKeepsStore | src/server.py:160-166 | with one clock, GET after the sweep never deletes anything |
| Laws.KeysListsLiveKeys | src/server.py:198-201 | KEYS lists each live key exactly once, in the relative order the keys had in the store before the sweep, and its count is the number of live keys |
| Laws.RangeWithinBounds | src/server.py:125-134 | for `0 <= start` and `-L <= end < L`, LRANGE is the inclusive range from start to the normalised end |
| Laws.RangeNegativeEndWraps | src/server.py:129-134 | an end index still negative after the first adjustment wraps once in the slice: for `-2L-1 <= end < -L-1` and start `<= 0` the result is the first `2L+end+1` elements |
| Laws.RangeClosedForm | src/server.py:125-134 | for every start and end, LRANGE is the run from the clamped start to an end that is capped at the length, counted from the back for a negative end, wrapped once more below `-L-1`, and 0 below `-2L-1` |
| Laws.RangeClamps | src/server.py:129-134 | a negative start acts as 0, an end at or past the last index acts as the last index, and an end below `-2L-1` gives nothing |
| Laws.RangeExamples | src/server.py:125-134 | on five elements: `1 -1` drops the head, `-100 100` is everything, `10 20` is empty, `0 -7` is the first four |
| Laws.RangeOfMissingKey | src/server.py:138-139 | LRANGE on a missing key replies `*0\r\n` |

## Left out

- The asyncio transport is not modelled. This covers reading 1024-byte chunks, UTF-8 decoding, printing, writing and draining, and `start_server` (src/server.py:50-61, 208-229). `Execute` starts from the already decoded command; a command split across reads is not modelled.
- `Execute` takes the command as a list of strings. Decoded commands of other shapes are not modelled: a bare string, None, an integer, or a list that holds non-strings.
- `load_data`, `save_data` and the SAVE command's effect are file I/O. SAVE is the `Persist` reply, and the snapshot format is not modelled.
- Concurrency is not modelled. There is a single event loop and no locking.
- Time is the explicit `now: real` argument. Float rounding is not modelled, and PX uses exact division. GET's second clock read (src/server.py:164) is the same `now`, which makes its lazy-expiry branch unreachable after the sweep (`Laws.GetAfterSweepKeepsStore`).
- Text.ReadInt: accepts only an optional sign followed by ASCII digits. Python's `int()` also accepts surrounding whitespace, underscores and non-ASCII digits. So a text that Python accepts after stripping white space, such as the `"5\r"` that `int()` receives from `":5\r\nX"`, fails in the model.
- Resp.IntFollowedFails: stated only for a following frame of at least three characters that starts with a type character. A shorter tail, or one that starts with white space, can decode in Python because `int()` strips white space.
- Text.ReprList: the contract states the brackets and the empty case only. The escaping of each item is given by the definitions of `Text.ReprStr` and `Text.ReprChar`.
- Text.ReprChar: treats every character from U+00A1 on, other than U+00AD, as printable. Python consults the Unicode database, which is not part of this model.
- Resp.Encode: an exception is modelled only as a string message (`Err`), and bool-as-int is not modelled.
- The codec's contract is not a round trip for every value. The code's decoder does not promise one: simple strings become bulk strings when re-encoded, and integers inside arrays fail. So the round trip is proved for the subset where the code achieves it.
