# tgdar, the ar archive reader, in Dafny

This project models the reading core of `tgdar`, a small Python reader for the
Unix `ar` container in the common/GNU layout that Debian `.deb` packages use,
and proves properties of that model. It covers two source files.

- `tgdar/ArInfo.py`: the member header. A 60-byte record is unpacked with the
  template `16s12s6s6s8s10s2s`. The name has every space and newline removed.
  The modification time, size, uid, gid and mode are read with Python's
  `int()` in base 10. The 2-byte end marker is never looked at. The `ArInfo`
  object keeps the decoded fields and a content slot that `set_content`
  overwrites.
- `tgdar/ArFile.py`: the archive object. `__enter__` checks the open mode,
  opens the file and checks the 8-byte signature `!<arch>\n` at offset 0.
  `_data_chunk(n)` reads `n` bytes at the handle's position and raises
  end-of-file when fewer come back. `getmembers` loops: read a 60-byte header,
  decode it, read `size` payload bytes right after it (no padding), and store
  the member in a dictionary under its name, until a short read ends the
  loop. The dictionary is cached and rebuilt only when it is empty or
  `recache` is set, from wherever the handle then is. `getmember` and
  `getnames` look into that dictionary.

Modules, one per file:

- `base.dfy` (`Base`): bytes, `Option`, `Result`, `Outcome`.
- `py_int.dfy` (`PyInt`): `int(field)` on a bytes field. It allows surrounding
  ASCII whitespace, an optional sign, and digits with single underscores
  between digits. Anything else is `None` (Python's `ValueError`). A reference
  writer (`EncodeField`) is given with its round trip.
- `ordered_dict.dfy` (`OrderedDict`): a Python `dict` as the cache uses it. It
  keeps insertion order, and a repeated key keeps its position but takes the
  new value.
- `header.dfy` (`Header`): `ArInfo.__init__` as the pure function
  `DecodeHeader`, its reference inverse `EncodeHeader`, and the class
  `ArInfo` with `SetContent`.
- `scan.dfy` (`Scan`): what the reader reads, stated on the file's bytes and a
  cursor. It has the chunk reader `ReadChunk`, the signature check, one loop
  turn `NextMember`, the whole loop `ScanFrom`, the name index `Index`, and a
  reference archive writer `EncodeArchive` with its round trip.
- `ar_file.dfy` (`Archive`): the class `ArFile`. Its fields are the file's
  bytes, the mode, the handle state, the handle position (`cursor`) and the
  member cache. Its methods are imperative, with the `getmembers` loop as a
  `while` loop, and each is proved against the `Scan` specification.

Behaviour of the code a reader may not expect, which the model keeps:

- A file shorter than 8 bytes raises `struct.error`, not the format error.
- A signature failure in `__enter__` leaves the handle open. The `with`
  statement does not call `__exit__` when `__enter__` raises.
- A payload cut short by the end of the file is silently dropped: the
  end-of-file exception breaks the loop as a normal end.
- A negative size is not rejected by the header decoder. A size of -1 makes
  `read(-1)` return the rest of the file, which the length check lets
  through, so that member swallows the rest of the archive. A size below -1
  makes `read` raise Python's `ValueError` before it reads anything
  (`InvalidReadLength`). That error is not `ArEndOfFile`, so it escapes
  `getmembers`: the members read before it stay in the cache and the
  cursor stays right after the header.
- Reading after `__exit__` raises Python's `ValueError` for a closed file,
  modelled as `ClosedFile`.

## Model

| member | source | states |
|---|---|---|
| `PyInt.TrimStartDrops` | tgdar/ArInfo.py:30-33 | `int()`'s leading trim removes exactly a run of ASCII whitespace and keeps the rest |
| `PyInt.TrimEndDrops` | tgdar/ArInfo.py:30-33 | `int()`'s trailing trim removes exactly a run of ASCII whitespace and keeps the rest |
| `PyInt.ParseEncodedField` | tgdar/ArInfo.py:30-33 | `ParseInt`, Python's `int()` on a field: a decimal number written left-justified and space-padded reads back as that number, in base 10 (a mode `100644` is not octal) |
| `PyInt.BlankFieldFails` | tgdar/ArInfo.py:30-33 | an all-blank numeric field is not a number, so `int()` raises |
| `PyInt.StrayByteFails` | tgdar/ArInfo.py:30-33 | a byte that is not whitespace, a sign, a digit or an underscore anywhere in a field makes `int()` raise |
| `OrderedDict.Empty` | tgdar/ArFile.py:102 | `dict()` has no keys and no entries |
| `OrderedDict.Put` | tgdar/ArFile.py:107 | `d[k] = v` binds `k` to `v`, keeps every other binding, and keeps the earlier keys in their positions, adding at most one key at the end |
| `OrderedDict.PutValid` | tgdar/ArFile.py:107 | assignment keeps each key listed once; the key list grows only for a new key |
| `OrderedDict.FromPairsValid` | tgdar/ArFile.py:107 | the dictionary built by a sequence of assignments lists each key once, exactly the mapped ones |
| `OrderedDict.FromPairsKeys` | tgdar/ArFile.py:107 | `FromPairs`, a `dict` filled by assignments in order: a key is present exactly when some assignment used it |
| `OrderedDict.FromPairsLastWins` | tgdar/ArFile.py:107 | a key's value is the one from the last assignment to that key |
| `OrderedDict.NoKeysIffEmpty` | tgdar/ArFile.py:101 | a dictionary has no keys exactly when it has no entries, so `not self._cached_members` tests either |
| `OrderedDict.FromPairsOrder` | tgdar/ArFile.py:118-120 | `keys()` lists the keys in the order of their first assignment |
| `Header.TemplateSize` | tgdar/ArInfo.py:9 | the widths 16, 12, 6, 6, 8, 10 and 2 add up to the 60-byte header |
| `Header.UnpackShape` | tgdar/ArInfo.py:24-25 | `Unpack`, `struct.unpack` with the template: unpacking gives one field per template width, each of that width, and the fields put back together give the record |
| `Header.UnpackConcat` | tgdar/ArInfo.py:24-25 | fields of the template's widths, put together and unpacked, come back unchanged |
| `Header.Remove` | tgdar/ArInfo.py:29 | `replace(b, '')` leaves no `b` and never lengthens the name |
| `Header.CleanName` | tgdar/ArInfo.py:29 | the cleaned name has no space and no newline and is no longer than the field |
| `Header.CleanNameIsUnfilled` | tgdar/ArInfo.py:29 | the two `replace` passes remove exactly the spaces and newlines, interior ones too, and keep every other byte in order |
| `Header.CleanPaddedName` | tgdar/ArInfo.py:29 | a name without spaces or newlines, padded with spaces, is cleaned back to itself |
| `Header.DecodeHeader` | tgdar/ArInfo.py:22-33 | decoding fails with a length error exactly when the record is not 60 bytes; a decoded name has no space or newline and fits the 16-byte field |
| `Header.DecodeFieldsOutcome` | tgdar/ArInfo.py:28-33 | `DecodeFields`, the assignments of `__init__`: decoding the unpacked fields fails only on a number, fails exactly when one of the five numbers does not parse, and otherwise yields a clean name |
| `Header.DecodeSucceedsIffNumbers` | tgdar/ArInfo.py:28-33 | a 60-byte record decodes exactly when its mtime, uid, gid, mode and size fields all parse as integers |
| `Header.DecodeFieldsOk` | tgdar/ArInfo.py:28-33 | when the name cleans to `h.name` and each number reads as `h`'s, the decoded header is `h` |
| `Header.EncodedFieldsRead` | tgdar/ArInfo.py:29-33 | each field an ar writer emits reads back as the value written: the name after cleaning, the numbers after `int()` |
| `Header.DecodeEncodedHeader` | tgdar/ArInfo.py:24-33 | decoding a written header gives back every field of it |
| `Header.EndMarkerIgnored` | tgdar/ArInfo.py:25 | the last two bytes do not affect the decoded header or the error, whatever they are |
| `Header.ArInfo.constructor` | tgdar/ArInfo.py:27 | a new object holds the decoded header and no content |
| `Header.ArInfo.FromBytes` | tgdar/ArInfo.py:22-33 | `ArInfo(header_data)` gives a fresh object with the decoded header and no content when decoding succeeds, and raises the decoding error otherwise |
| `Header.ArInfo.SetContent` | tgdar/ArInfo.py:35-45 | after `set_content(data)`, `content` reads back exactly `data` |
| `Scan.ReadChunk` | tgdar/ArFile.py:94-98 | `_data_chunk(n)` returns exactly the next `n` bytes and moves the cursor past them, or signals end of file exactly when fewer remain, with the cursor at the end; `n == -1` returns the rest of the file; an `n` below -1 raises `ValueError` exactly then, and the cursor stays |
| `Scan.CheckSignature` | tgdar/ArFile.py:87-92 | the check passes exactly when the first 8 bytes are `!<arch>\n`; fewer than 8 bytes is its own error, and any other 8 bytes are the wrong-format error |
| `Scan.NextMember` | tgdar/ArFile.py:103-109 | one loop turn: a member ends after its header and payload, with the payload as long as declared (a size of -1 reaching the end of file); a normal stop leaves the cursor at the end of the file; a failure is a decoding error or the `ValueError` of a size below -1, and leaves the cursor right after the header |
| `Scan.NextMemberAt` | tgdar/ArFile.py:105-106 | a member read at a cursor has its header there and its payload right after it; a failing turn failed on the header at that cursor, which either does not decode or declares a size below -1 |
| `Scan.MemberAt` | tgdar/ArFile.py:105-106 | the member a turn reads lies at the turn's cursor, with a payload of the declared size |
| `Scan.NextMemberReads` | tgdar/ArFile.py:105-106 | a header that decodes, followed by as many bytes as it declares, is read as one member ending right after them |
| `Scan.ScanFrom` | tgdar/ArFile.py:100-110 | the whole loop of `getmembers` from a cursor, as the members read, where the cursor ends and what it raises; the cursor never moves back and never passes the end of the file (its turns are stated by `ScanStep`) |
| `Scan.ScanStep` | tgdar/ArFile.py:103-109 | the loop is one turn and then the loop from the cursor after that member, or it stops where the turn stopped |
| `Scan.ScanAtShortHeader` | tgdar/ArFile.py:105 | a short header read ends the loop normally with nothing more read |
| `Scan.ScanAtBadHeader` | tgdar/ArFile.py:105 | a header that does not decode ends the loop with that error, the cursor right after the header |
| `Scan.ScanAtShortPayload` | tgdar/ArFile.py:106 | a short payload read ends the loop normally, and the member is not stored |
| `Scan.ScanAtMember` | tgdar/ArFile.py:105-107 | a full header and payload give one member, then the loop from the cursor after the payload |
| `Scan.ScanCursor` | tgdar/ArFile.py:105-106 | the cursor after the first `k` members is the start plus 60 bytes and the payload length of each of them, with no padding |
| `Scan.ScanMemberTurn` | tgdar/ArFile.py:105-106 | the turn at the cursor reached after `i` members reads the `i`-th member |
| `Scan.ScanStopTurn` | tgdar/ArFile.py:103-109 | the turn at the cursor after the last member is the one that ended the loop |
| `Scan.ScanRecordsAt` | tgdar/ArFile.py:105-106 | the `i`-th member's header starts right after the previous payload, at the start plus the bytes of the members before it, and its payload has the declared size |
| `Scan.ScanEnd` | tgdar/ArFile.py:103-109 | a loop that ends normally has consumed the whole file; one that fails stops right after the header that made it raise, which follows the last member read and either does not decode or declares a size below -1 |
| `Scan.NegativeSizeIsLast` | tgdar/ArFile.py:106 | a member read with a negative size has size -1 and swallows the rest of the file, so it is the last member and the loop ends normally |
| `Scan.ScanAtInvalidLength` | tgdar/ArFile.py:105-106 | a payload read refused as a length below -1 ends the loop with `ValueError`, nothing stored and the cursor right after the header |
| `Scan.InvalidSizeRaises` | tgdar/ArFile.py:105-106 | a header that decodes with a size below -1 makes the loop raise `ValueError` right after that header, whatever follows |
| `Scan.TruncatedPayloadDropped` | tgdar/ArFile.py:106-109 | a header that decodes but whose payload runs past the end of the file ends the loop normally, without that member |
| `Scan.ScanAtEnd` | tgdar/ArFile.py:101-109 | at the end of the file the loop finds nothing and raises nothing, which is what a second scan sees since the cursor is not rewound |
| `Scan.IndexSnoc` | tgdar/ArFile.py:107 | storing one more member extends the index as `d[name] = member` does |
| `Scan.IndexLastWins` | tgdar/ArFile.py:107 | `Index`, the dictionary the loop builds from the members it reads: the index lists each name once; a name is a key exactly when some member has it; its entry is the last member read with that name |
| `Scan.IndexedPayloadSizes` | tgdar/ArFile.py:105-107 | every indexed member is stored under its own name and has a size of at least -1 and a payload of its declared size, unless that size is -1 |
| `Scan.ScanOverMembers` | tgdar/ArFile.py:103-109 | members laid out back to back are read one by one, and the loop carries on after the last of them |
| `Scan.EncodedSpan` | tgdar/ArFile.py:105-106 | written members take exactly the bytes the loop steps over |
| `Scan.WrittenLaidOut` | tgdar/ArFile.py:105-106 | members as an ar writer emits them are read one after the other, whatever comes before and after them |
| `Scan.WrittenThen` | tgdar/ArFile.py:103-109 | after the signature of a written archive, the loop yields its members first, then goes on from the end of the last one |
| `Scan.ArchiveRoundTrip` | tgdar/ArFile.py:87-109 | a written archive passes the signature check and scans back to exactly its members, ending normally at the end of the file |
| `Scan.TruncatedArchive` | tgdar/ArFile.py:103-109 | an archive whose last member is cut short yields the members before it and no error |
| `Archive.ReadError` | tgdar/ArFile.py:94-95 | a read succeeds only on a handle open for reading; before opening, after closing, or on a handle opened for writing it raises |
| `Archive.MirrorsSnoc` | tgdar/ArFile.py:107 | storing the new `ArInfo` in the cache keeps the cache in step with the index of the members read so far |
| `Archive.ArFile.constructor` | tgdar/ArFile.py:62-66 | `ArFile.open` remembers the file and the mode and opens nothing, with an empty cache |
| `Archive.ArFile.Enter` | tgdar/ArFile.py:76-82 | a mode other than `'r'` or `'w'` raises before anything changes; `'w'` truncates the file and the signature read raises; `'r'` opens the file and gives the signature check's result, with the cursor after the bytes it read |
| `Archive.ArFile.CheckHeader` | tgdar/ArFile.py:87-92 | whatever the cursor was, the check reads from offset 0 and gives the signature check's result |
| `Archive.ArFile.DataChunk` | tgdar/ArFile.py:94-98 | on a readable handle and a length of at least -1 it gives `ReadChunk` at the cursor and moves the cursor to after it; a length below -1 raises `ValueError` and moves nothing; an unreadable handle raises its error and moves nothing |
| `Archive.ArFile.ReadMember` | tgdar/ArFile.py:105-109 | one loop turn on the handle agrees with `ScanStep`: a fresh object holding the member, then the loop from the new cursor; or the normal end; or the decoding error, or the `ValueError` of a size below -1, with nothing stored |
| `Archive.ArFile.GetMembers` | tgdar/ArFile.py:100-110 | a non-empty cache is returned unchanged unless `recache`; otherwise the cache is emptied, an unreadable handle raises, and the loop from the current cursor fills the cache with the index of the members read, ending where the scan ends and raising a header error or a size below -1's `ValueError` after storing the members before it |
| `Archive.ArFile.Rescan` | tgdar/ArFile.py:103-109 | the `while` loop, from an emptied cache, stores exactly the index of the members the scan from the cursor yields, stops where the scan stops and raises what the scan ends on |
| `Archive.ArFile.StoreNext` | tgdar/ArFile.py:104-109 | one pass of the loop: a member read is stored under its name and the cursor moves past it; the end of the file breaks the loop; any other error escapes with the cache unchanged |
| `Archive.ArFile.GetMember` | tgdar/ArFile.py:112-116 | the cached object under `name`, or `None` when there is none; only the scan it may trigger raises, and a rescan on an unreadable handle raises its error with the cache emptied |
| `Archive.ArFile.GetNames` | tgdar/ArFile.py:118-120 | the cached names in insertion order with the cache untouched, which after a rescan are the index's keys; a rescan on an unreadable handle raises its error with the cache emptied |
| `Archive.ArFile.Exit` | tgdar/ArFile.py:84-85 | closing a handle, even twice, succeeds; before the file was opened there is no handle and it raises |

## Left out

- The real `open()` and `close()` calls are not modelled. The file is a byte sequence given to the constructor and does not change while it is read. `FileNotFoundError` and other operating-system errors are not modelled.
- `Scan.CheckSignature`: compares the 8 bytes with the signature directly. The source first decodes them as UTF-8, so 8 bytes that are not valid UTF-8 raise `UnicodeDecodeError` there and `WrongFormat` here.
- `Header.DecodeHeader`: names stay bytes. The source decodes the name as UTF-8, so a name that is not valid UTF-8 raises `UnicodeDecodeError` there and decodes here. Removing spaces and newlines gives the same result on bytes as on the decoded text.
- `Header.DecodeHeader`: the modification time stays the parsed integer. `datetime.fromtimestamp` depends on the local time zone and raises for out-of-range values; those failures are not modelled.
- `content_as_bytes_io` wraps the content in a `BytesIO` for other tools; it holds no logic of the reader.
- The `ar` back-reference of `ArInfo` is always `None` as `getmembers` builds members, so it is not modelled.
- The type and bits constants, `is_bsd_extended_file_name`, `VERSION`, `buffer_size`, `fileobj` and `is_rt` are not modelled: nothing in the reader uses them.
- Aliasing is not modelled. `getmembers` returns the cache dictionary object itself, so a caller that changes it changes the cache; the model returns the dictionary as a value.
- Write mode beyond what `__enter__` does is not modelled: nothing in the source writes an archive. `EncodeHeader` and `EncodeArchive` are reference writers used only to state round trips.
