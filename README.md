# Conversation context of openai_chatgpt

`openai_chatgpt.py` is a command-line assistant. On each run it:

- takes the clipboard text and an instruction and composes a prompt;
- reads recent turns from a SQLite `conversations` table;
- sends the system role, those turns and the new prompt to a chat-completion endpoint;
- stores the user's prompt and the model's reply as two new rows.

The text of every row is kept as Base64 of its UTF-8 bytes.

This project models that conversation-context logic in Dafny and proves properties of it:

- `wrappers.dfy`: `Option`, `Result` and the program's failure kinds:
  - an empty prompt;
  - a missing table;
  - a failed request;
  - a stored field that does not decode.
- `utf8.dfy`: Python's strict `utf-8` codec, on strings of Unicode scalar values (no lone surrogates; see "Left out"). Encoding and decoding are inverse in both directions.
- `base64.dfy`: `base64.b64encode` (standard alphabet, `=` padding, section 4 of RFC 4648). Also `base64.b64decode` with its default non-validating mode, modelled as CPython's `a2b_base64` scanner:
  - it discards characters outside the alphabet;
  - it stops at the pad that completes a quad;
  - it fails only when the text ends inside a quad.
- `codec.dfy`: `encode_base64` and `decode_base64`, their round trip, and the shape of a stored field.
- `history.dfy`: the `conversations` table as a class. It holds:
  - whether the table exists;
  - its rows `(id, timestamp, role, content)` in insertion order;
  - the AUTOINCREMENT counter.

  The file also models `set_up_database`, `insert_conversation`, `timestamp_n_minutes_ago` (the clock reading is a parameter) and `get_conversations_after_timestamp`.
- `prompt.dfy`: the prompt composer and the outgoing message list of `run_chatgpt`.
- `chat.dfy`:
  - `run_chatgpt` as a step sequence over the store, with the clock readings and the endpoint as parameters;
  - the fact that the turns one run stores come back in the next run's history;
  - `main`'s loop that lays command-line values over the configuration.

`decode_base64` first encodes its text as UTF-8 and hands those bytes to the decoder. Every non-ASCII character becomes bytes at or above 0x80, which the decoder discards like any other non-alphabet byte. The model therefore decodes the characters directly, which gives the same result.

## Model

| member | source | states |
|---|---|---|
| Utf8.EncodeChar | openai_chatgpt.py:139 | One character encodes to one to four bytes. It is a single byte exactly for ASCII, and every byte after the first is a continuation byte. |
| Utf8.Encode | openai_chatgpt.py:139 | The UTF-8 form of a string has between one and four bytes per character. |
| Utf8.DecodeFirst | openai_chatgpt.py:157 | An accepted leading sequence is one to four bytes long and lies within the input. |
| Utf8.Decode | openai_chatgpt.py:157 | A successful decode yields at least a quarter as many characters as bytes and no more characters than bytes. |
| Utf8.DecodeFirstEncodeChar | openai_chatgpt.py:139-157 | Decoding the front of an encoded character gives back that character and its length, whatever follows. |
| Utf8.EncodeCharDecodeFirst | openai_chatgpt.py:139-157 | Whatever the decoder accepts at the front is exactly the shortest-form encoding of the character it returns. Overlong forms and surrogates are refused. |
| Utf8.DecodeEncode | openai_chatgpt.py:139-157 | For every string, decoding its UTF-8 form gives the string back. |
| Utf8.EncodeDecode | openai_chatgpt.py:139-157 | Every byte sequence that decodes is the encoding of the string it decodes to, so the codec is a bijection on well-formed bytes. |
| Base64.CharOf | openai_chatgpt.py:140 | Every 6-bit value maps to a character of the standard alphabet. |
| Base64.ValueOf | openai_chatgpt.py:156 | Every alphabet character maps to a 6-bit value, and that value maps back to the character. |
| Base64.ValueOfCharOf | openai_chatgpt.py:140-156 | The alphabet is a bijection: the value of the character for `v` is `v`. |
| Base64.EncodeQuad | openai_chatgpt.py:140 | One quad holds four characters. The first two are always alphabet characters. The third may be a pad only when one byte is given, and the fourth only when fewer than three are; every other position is an alphabet character. |
| Base64.QuadPads | openai_chatgpt.py:140 | In one quad the `=` characters are exactly the positions past the data: two after one byte, one after two, none after three. |
| Base64.EncodeLength | openai_chatgpt.py:140 | The encoding of `n` bytes has `4*ceil(n/3)` characters. |
| Base64.Encode | openai_chatgpt.py:140 | `base64.b64encode`: three bytes to a quad, with a short final group padded. No contract of its own; EncodeLength, EncodePadded, EncodePads and DecodeEncode give its length, alphabet, padding and inverse. |
| Base64.EncodePadded | openai_chatgpt.py:140 | Every character of the encoding is an alphabet character or a `=` in one of the last two positions. With a byte count divisible by three there is no `=` at all. |
| Base64.PadCount | openai_chatgpt.py:140 | The pad count for `n` bytes is at most two, and zero exactly when `n` is a multiple of three. |
| Base64.EncodePads | openai_chatgpt.py:140 | The `=` characters of an encoding are exactly its last `(3 - n % 3) % 3` characters, so no alphabet character ever follows a `=`. |
| Base64.DecodeFullQuad | openai_chatgpt.py:140-156 | A full quad decodes to its three bytes and leaves the scanner in its starting state. |
| Base64.DecodePaddedQuad | openai_chatgpt.py:140-156 | The final padded quad decodes to its one or two bytes, and the scanner stops there. |
| Base64.DecodeFrom | openai_chatgpt.py:156 | CPython's non-strict `a2b_base64` loop over (position in quad, bits owed, pads seen): it skips non-alphabet characters, stops at the completing pad and fails when the text ends mid-quad. No contract of its own; DecodeFullQuad, DecodePaddedQuad and UnpaddedDecodeFrom state its behaviour. |
| Base64.Decode | openai_chatgpt.py:156 | `base64.b64decode` from a fresh scanner state. No contract of its own; its meaning is DecodeEncode (inverse of Encode) and UnpaddedDecode (its error case). |
| Base64.DecodeEncode | openai_chatgpt.py:140-156 | For every byte sequence, decoding its Base64 encoding gives it back. |
| Base64.UnpaddedDecodeFrom | openai_chatgpt.py:156 | From any scanner state, alphabet-only text decodes exactly when the scan ends on a quad boundary. |
| Base64.UnpaddedDecode | openai_chatgpt.py:156 | Alphabet-only text decodes exactly when its length is a multiple of four, and is rejected otherwise. |
| Codec.EncodeTextShape | openai_chatgpt.py:139-142 | A stored field has `4*ceil(len(utf8(s))/3)` characters. All of them are from the alphabet except a final run of `=` whose length is `(3 - len(utf8(s)) % 3) % 3`. |
| Codec.EncodeText | openai_chatgpt.py:129-142 | `encode_base64`: UTF-8 then Base64. No contract of its own; DecodeEncodeText, EncodeTextInjective and EncodeTextShape state its round trip, injectivity and form. |
| Codec.DecodeText | openai_chatgpt.py:145-158 | `decode_base64`: Base64 then UTF-8, None where either raises. No contract of its own; DecodeEncodeText makes it the inverse of EncodeText on every string. |
| Codec.DecodeEncodeText | openai_chatgpt.py:129-158 | For every string, including the empty string and multi-byte text, `decode_base64(encode_base64(s)) == s`. |
| Codec.EncodeTextInjective | openai_chatgpt.py:129-142 | Two different strings are never stored as the same field. |
| History.Window | openai_chatgpt.py:289-290 | The query's rows are exactly the stored rows with `timestamp >= cutoff`, and no more rows than are stored. |
| History.Cutoff | openai_chatgpt.py:161-174 | `timestamp_n_minutes_ago` with the clock reading as a parameter. No contract of its own; WindowByAge states what selecting from this cutoff means. |
| History.WindowByAge | openai_chatgpt.py:171-174 | With cutoff `now - 60*n`, a row is selected exactly when it is stored and at most `60*n` seconds old. |
| History.WindowKeepsOrder | openai_chatgpt.py:289-290 | Selection keeps the stored order: ids still strictly increase. |
| History.SortedByIdUnique | openai_chatgpt.py:289-290 | Two id-sorted sequences with the same members are equal. |
| History.WindowIsExact | openai_chatgpt.py:289-290 | Among id-sorted sequences, the stored-order window is the only one holding exactly the recent rows. |
| History.WindowConcat | openai_chatgpt.py:289-290 | Selecting from a table that grew is the old selection followed by the selection from the new rows. |
| History.FieldsConcat | openai_chatgpt.py:295-296 | The role and content columns of concatenated rows are the concatenated columns. |
| History.DecodeAll | openai_chatgpt.py:295-296 | One comprehension of decode_base64 over a column. No contract of its own; DecodeAllPointwise and DecodeAllConcat state its meaning. |
| History.DecodeAllPointwise | openai_chatgpt.py:295-296 | The comprehension succeeds exactly when every field decodes. The result then has one entry per field, and its i-th entry is the decoding of the i-th field. |
| History.DecodeAllConcat | openai_chatgpt.py:295-296 | Decoding a concatenation gives the concatenated decodings, or fails when either part fails. |
| History.DecodableRows | openai_chatgpt.py:295-296 | Both columns decode exactly when every field of every selected row decodes. |
| History.ConversationsAfter | openai_chatgpt.py:289-297 | The SELECT and the two comprehensions over the table's rows. No contract of its own; QueryDecodesWindow, WindowIsExact and QueryConcat state its meaning. |
| History.QueryDecodesWindow | openai_chatgpt.py:289-297 | The query succeeds exactly when every selected row decodes. Then the roles and contents have equal length, as many entries as selected rows, and their i-th entries are the decoded role and content of the i-th selected row, in stored order. |
| History.QueryConcat | openai_chatgpt.py:289-297 | The query over a grown table is the old answer followed by the answer over the new rows. |
| History.QuerySingle | openai_chatgpt.py:289-297 | A single recent, decodable row is returned decoded. |
| History.QueryAfterAppend | openai_chatgpt.py:289-297 | A row appended with a recent timestamp and decodable fields is the last entry of the next query. |
| History.QueryAfterTwoAppends | openai_chatgpt.py:289-297 | Two recent decodable rows appended in order are the last two entries of the next query, in that order. |
| History.StoredRowDecodable | openai_chatgpt.py:210-211 | A row written through the codec keeps every stored field decodable. |
| History.QueryOfDecodable | openai_chatgpt.py:289-297 | A table written only through the codec never fails a query. |
| History.ConversationStore.constructor | openai_chatgpt.py:186 | A fresh database file has no table and no rows. |
| History.ConversationStore.Existing | openai_chatgpt.py:188-194 | An existing table holds the given rows and counter. |
| History.ConversationStore.SetUp | openai_chatgpt.py:188-194 | Afterwards the table exists. Rows and counter are unchanged whether or not it existed, so calling it again leaves existing rows untouched. |
| History.ConversationStore.Insert | openai_chatgpt.py:200-221 | With the table present it appends exactly one row and leaves all prior rows unchanged. The new row carries the next id (greater than every existing id), the given timestamp, and the Base64 role and content, and the counter advances. Without the table it fails and changes nothing. The id-order invariant is kept. |
| History.ConversationStore.GetConversationsAfter | openai_chatgpt.py:273-297 | Without the table it is a storage error. With it, it succeeds exactly when every field of every selected row decodes, and otherwise it is a corrupt-data error. On success the roles and contents are as long as the window, and their i-th entries are the decoded role and content of the i-th selected row. |
| Prompt.Compose | openai_chatgpt.py:363-370 | The four-way policy. It fails exactly when both inputs are empty. Otherwise the result starts with the instruction and ends with the clipboard text, and it is `instruction + ": " + clipboard` when both are non-empty and the non-empty one alone otherwise (by length). |
| Prompt.Zip | openai_chatgpt.py:380 | `zip` is as long as the shorter list, and its i-th pair comes from the i-th entries. |
| Prompt.BuildMessages | openai_chatgpt.py:376-385 | The first message is `{system, system_role}` and the last is `{user, new_prompt}`. The middle is the history as `{role, content}` in query order. The length is two plus the number of history entries. |
| Chat.RunChatgpt | openai_chatgpt.py:300-400 | The table exists afterwards. An empty prompt aborts before any query, request or insert. A history field that does not decode, or a failed request, aborts with no insert. After a reply, the messages sent are those of `BuildMessages` over the old table's window, and exactly two rows are appended: `("user", new_prompt)` then `("assistant", reply)`, with consecutive fresh ids. |
| Chat.InsertTurnPair | openai_chatgpt.py:399-400 | Two inserts append exactly the two encoded rows, in order, with consecutive ids. |
| Chat.RecordTurns | openai_chatgpt.py:399-400 | The run's closing inserts append the user turn and then the assistant turn. |
| Chat.NewTurns | openai_chatgpt.py:399-400 | The two rows a completed run appends. No contract of its own; RecordTurns and RunChatgpt append exactly these rows, and NextRunReplaysTurns reads them back. |
| Chat.NextRunReplaysTurns | openai_chatgpt.py:399-400 | When both new turns fall inside the next run's window, that run's history is the old history followed by `user: prompt` and `assistant: reply`, decoded and in order. |
| Chat.ApplyOverrides | openai_chatgpt.py:544-546 | After the loop, a key is present exactly when it was configured or some command-line value for it is not None. Its value is the last such command-line value if there is one, and the configured value otherwise. |
| Chat.LastOverride | openai_chatgpt.py:544-546 | The last non-None command-line value for a key, read from the end of the list. No contract of its own; it is the reference ApplyOverrides is proved against. |

## Left out

- Clipboard access and clearing (`get_clipboard_content`, `clear_clipboard`) are OS clipboard I/O. The clipboard text and the instruction are parameters.
- Sound playback, microphone recording and transcription (including its `unicode_escape` step) are device I/O and foreign library calls. A recorded instruction reaches the model as the `action` parameter.
- `send_request`, JSON serialisation, the model name, the temperature and `print(reply)` are network I/O, a library call and floats. The endpoint is a function from the message list to a reply or a failure. Extracting `choices[0].message.content` is part of that function.
- SQLite itself, connections, commits and concurrent processes are replaced by the in-memory row sequence of `ConversationStore`.
- The wall clock is read three times: for the cutoff and at each insert. Each reading is a parameter (`Clock`), so the `utcnow`/`mktime` timezone offset is not modelled.
- `read_config`, `parse_args`, `expand_file_path` and logging are configuration and OS path handling. `ApplyOverrides` starts from the configuration as a map.
- Codec.EncodeText: Python strings may hold lone surrogates, which Dafny's `char` excludes, so the model cannot express them. The program can build such strings. `unicode_escape` in the transcription step (openai_chatgpt.py:270) can put one in the prompt, and `json.loads` on the response (openai_chatgpt.py:252) can put one in the reply. `encode("utf-8")` then raises `UnicodeEncodeError`.
- Chat.RunChatgpt: its promise that a reply appends exactly two rows covers only prompts and replies without lone surrogates. The source behaves differently on the two paths:
  - A surrogate in the prompt makes the user insert raise (openai_chatgpt.py:399), so nothing is stored.
  - A surrogate in the reply usually makes `print(reply)` raise (openai_chatgpt.py:396), since stdout's error handler rejects it, and nothing is stored. When stdout does not raise, the user row is inserted and committed on its own (openai_chatgpt.py:212-221, 399). Only the assistant insert raises (openai_chatgpt.py:400), which leaves exactly one row, a half-written turn pair.
- Chat.ApplyOverrides: takes the command-line values as a sequence, which may repeat a key. `vars(args)` never repeats one, and the contract covers repeats by letting the last value win.
- History.ConversationStore.Insert: does not model SQLite's AUTOINCREMENT ceiling of 2^63-1, where the insert fails with SQLITE_FULL. Ids are unbounded integers.
- The Base64 decoder follows the non-validating decoder of CPython 3.11 and later. Older versions treat some malformed pad placements differently.
- The query's order: the SELECT has no ORDER BY, and the model returns rows in stored (insertion) order. Ids and timestamps then increase together only as far as the clock does, and the model assumes nothing about timestamp order.
- Malformed Base64 is not always an error. The decoder follows the code, which skips characters outside the alphabet and ignores text after a completing pad. Only text that ends inside a quad fails, as does a byte sequence that is not UTF-8. Stored fields are always well-formed, so this matters only for rows written by other programs.
