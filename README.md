# Dog registry of an RCU linked-list kernel module

`sync/rcu/rcu-linked-list.c` is a kernel module that keeps a FIFO list of
dog records. Each record has a breed, an age in months, and a
"training is easy" flag. The module offers one sysfs attribute and one timer:

- **writing** the attribute (`dog_attr_store`) appends the record parsed
  from `"breed,age,flag"`:
  - at most 64 bytes of the write are copied with `kstrndup`;
  - the copy is split on every comma with `strsep`;
  - the age is read with `kstrtoint(_, 10)` and the flag with `kstrtoint(_, 2)`;
  - on success the record is appended under a spinlock and `dog_list_size`
    grows by one;
- **reading** it (`dog_attr_show`) prints every record as
  `"<breed> <age> <true|false>\n"` into a 64-byte local buffer with
  `snprintf`, copies that buffer out, and returns the printed length;
- the **timer** (`timer_remove_dog`) unlinks the oldest record and hands it
  to `kfree_rcu`.

Writers are serialised by `list_update_lock` and readers work on an RCU
snapshot, so each operation is modelled as one atomic step on the class
`RcuLinkedList.DogRegistry`.
- Its fields are `dogList` (`dog_list`) and `dogListSize` (`dog_list_size`).
- Two ghost fields record every record ever stored and every record handed
  to deferred freeing.
- The invariant `Valid` says that the freed records, followed by the listed
  ones, are exactly the stored ones. Records therefore leave in the order
  they came, and each is freed once.

The model is split along the kernel code the module relies on:

- `kernel.dfy` (`Kernel`): bytes of C strings, `int`, `size_t` (wrapping
  modulo 2^64), error numbers, and the Option and Result wrappers.
- `cstring.dfy` (`CString`): `kstrndup`, and `strsep` on `","`, with
  `Fields`, the list of tokens that a full run of `strsep` yields.
- `kstrtox.dfy` (`Kstrtox`): `kstrtoint`, layered as the kernel layers it
  (`_kstrtoull`, `kstrtoull`, `kstrtoll`, `kstrtoint`). It is proved
  against an independent description of numerals: `IsNumeral` and
  `NumeralValue`.
- `vsprintf.dfy` (`Vsprintf`): the `%d` conversion and `snprintf` writing
  into a buffer.
- `rcu_linked_list.dfy` (`RcuLinkedList`): the records, the parser, the
  printer, the registry class, and runs of it.

Each allocation (`kstrndup`, `kmalloc`) succeeds or fails according to a
boolean input of `Store`. The bytes that the uninitialised show buffer
held are an input of `Show`.

In these places the code behaves differently from what a reader might
expect, and the model follows the code:
- The flag must be a binary numeral (`1`, `0`, `+1`, `-0`, `10`, ...), so a
  write such as `Rex,24,true` is rejected with `-EINVAL`, although a read
  prints the flag as `true` or `false`.
- A negative age is accepted.
- A write with more than three fields is not rejected: the extra tokens
  overrun `dog_attr[3]`. The model makes at most three fields a
  precondition of `Store`.
- A read whose records exceed 63 bytes is not truncated at a record
  boundary. `snprintf` is always given 64 bytes, whatever the offset. A
  single record longer than 63 bytes (a 60-byte breed written as
  `B...B,1,1` prints 68 bytes) is printed at offset 0: it is cut to 63
  bytes plus a NUL inside the buffer, and the full length 68 is returned.
  Bytes are written past the buffer only when a second or later record
  starts at an offset where the 64 bytes allowed no longer fit. The model
  makes the 63-byte bound a precondition of `Show`.
- `dog_list_size` is not kept equal to the number of records (see
  Findings).

## Model

| member | source | states |
|---|---|---|
| Kernel.SizeTStep | sync/rcu/rcu-linked-list.c:131 | incrementing a `size_t` that holds n modulo 2^64 gives n+1 modulo 2^64, and decrementing gives n-1 |
| Kernel.Errno.Code | sync/rcu/rcu-linked-list.c:104 | every error is returned as a negative number (-ENOMEM, -EINVAL, -ERANGE) |
| CString.Kstrndup | sync/rcu/rcu-linked-list.c:102 | the copy is a prefix of the write, holds no NUL, has at most 64 bytes, and stops only at the bound, at the end, or at a NUL |
| CString.KstrndupShort | sync/rcu/rcu-linked-list.c:102 | a C string of at most 64 bytes is copied whole |
| CString.IndexOf | sync/rcu/rcu-linked-list.c:105 | the position strsep cuts at: the first comma, or the end when there is none |
| CString.Strsep | sync/rcu/rcu-linked-list.c:105 | one strsep call: a NULL pointer yields NULL; otherwise the text up to the first comma is the token and the pointer moves past the comma, or becomes NULL when there is none |
| CString.Fields | sync/rcu/rcu-linked-list.c:105-106 | the tokens hold no comma, hold no NUL when the input holds none, and are no longer than the input |
| CString.FieldsCount | sync/rcu/rcu-linked-list.c:105-106 | empty tokens are kept: there is one more token than there are commas |
| CString.JoinFields | sync/rcu/rcu-linked-list.c:105-106 | joining the tokens with commas gives the input back |
| CString.FieldsJoin | sync/rcu/rcu-linked-list.c:105-106 | splitting comma-free tokens joined with commas gives the tokens back |
| CString.FieldsCons | sync/rcu/rcu-linked-list.c:105 | a comma-free token followed by a comma is the first token |
| CString.StrsepStep | sync/rcu/rcu-linked-list.c:105 | one strsep call yields the first token and leaves exactly the remaining tokens pending |
| RcuLinkedList.TakeToken | sync/rcu/rcu-linked-list.c:105 | the token strsep yields comes off the front of the pending tokens |
| RcuLinkedList.Tokenize | sync/rcu/rcu-linked-list.c:105-106 | the strsep loop fills `dog_attr` with exactly the comma-separated tokens of the copy, in order, empty ones included |
| RcuLinkedList.Put | sync/rcu/rcu-linked-list.c:106 | storing a token in `dog_attr[idx]` changes that slot only, so the filled prefix grows by that token |
| Kstrtox.DigitRun | sync/rcu/rcu-linked-list.c:110 | the digits read are all digits of the base, and the byte after them is not |
| Kstrtox.ParseUnsigned | sync/rcu/rcu-linked-list.c:110 | the unsigned parse below kstrtoint: -ERANGE when the leading digit run exceeds 64 bits, -EINVAL when there is no digit or anything but one newline follows, otherwise the run's value |
| Kstrtox.Kstrtoull | sync/rcu/rcu-linked-list.c:110 | the unsigned parse after skipping one leading `+` |
| Kstrtox.Kstrtoll | sync/rcu/rcu-linked-list.c:110 | a leading `-` negates the unsigned value and gives -ERANGE below the 64-bit minimum; otherwise kstrtoull with -ERANGE above the 64-bit maximum; the lower layer's error is passed on |
| Kstrtox.Kstrtoint | sync/rcu/rcu-linked-list.c:110 | kstrtoll narrowed to int: -ERANGE outside the int range, the lower layer's error otherwise |
| Kstrtox.ParseUnsignedSpec | sync/rcu/rcu-linked-list.c:110 | the unsigned parse accepts exactly digits plus an optional newline whose value fits in 64 bits and returns that value; it fails with -ERANGE exactly when the leading run of digits overflows 64 bits, whatever follows, and with -EINVAL otherwise |
| Kstrtox.KstrtollSpec | sync/rcu/rcu-linked-list.c:110 | the 64-bit parse accepts exactly the numerals whose value fits and returns it; it fails with -ERANGE exactly for a numeral out of range or a digit run after the sign that overflows 64 bits, and with -EINVAL otherwise |
| Kstrtox.KstrtointSpec | sync/rcu/rcu-linked-list.c:110-115 | kstrtoint accepts exactly the numerals (optional sign, digits of the base, optional newline) whose value fits in an int, returns that value, fails with -ERANGE exactly for a numeral out of int range or a digit run after the sign that overflows 64 bits, and with -EINVAL for everything else |
| Kstrtox.NoDigitRejected | sync/rcu/rcu-linked-list.c:113 | text that starts with neither a sign nor a digit of the base is -EINVAL |
| Vsprintf.Digit | sync/rcu/rcu-linked-list.c:80 | the ASCII digit printed for k reads back as k |
| Vsprintf.NatDigits | sync/rcu/rcu-linked-list.c:80 | the decimal digits of a number are non-empty, all decimal digits, and have no leading zero |
| Vsprintf.DecimalString | sync/rcu/rcu-linked-list.c:80 | what `%d` prints: a `-` for a negative value, then the decimal digits of its magnitude |
| Vsprintf.NatDigitsValue | sync/rcu/rcu-linked-list.c:80 | the digits printed for n read back as n |
| Vsprintf.DecimalIsNumeral | sync/rcu/rcu-linked-list.c:80 | what `%d` prints is a C string and a decimal numeral for the printed value |
| Vsprintf.DecimalRoundTrip | sync/rcu/rcu-linked-list.c:110 | reading what `%d` printed with kstrtoint in base 10 gives back the printed int |
| Vsprintf.Snprintf | sync/rcu/rcu-linked-list.c:79 | writes at most size-1 bytes of the text at the offset, then a NUL, leaves every other byte alone, and returns the full text length |
| RcuLinkedList.Record | sync/rcu/rcu-linked-list.c:79-81 | the line the format `"%s %d %s\n"` prints for a record: breed, space, decimal age, space, `true` or `false`, newline |
| RcuLinkedList.Render | sync/rcu/rcu-linked-list.c:78-82 | the text a read produces: every listed record's line, in list order |
| RcuLinkedList.ConcatAppend | sync/rcu/rcu-linked-list.c:78-82 | printing two lists one after the other prints their concatenation |
| RcuLinkedList.ConcatFront | sync/rcu/rcu-linked-list.c:78-82 | printing a non-empty list prints its first item, then the rest |
| RcuLinkedList.ConcatStep | sync/rcu/rcu-linked-list.c:78-82 | printing one more entry appends that entry's text and never exceeds the printing of the whole list |
| RcuLinkedList.RenderAfterStore | sync/rcu/rcu-linked-list.c:130 | after an append, a read shows the old records followed by the new one |
| RcuLinkedList.RenderAfterTick | sync/rcu/rcu-linked-list.c:176 | after the head is removed, a read shows the old text without the oldest record's line |
| RcuLinkedList.Screen | sync/rcu/rcu-linked-list.c:79 | the show buffer holds the printed text, then the NUL snprintf wrote, then the untouched bytes |
| RcuLinkedList.ScreenStep | sync/rcu/rcu-linked-list.c:79 | printing a record at the running offset turns the buffer image of the printed text into that of the text plus the record |
| RcuLinkedList.PrintOne | sync/rcu/rcu-linked-list.c:79 | one snprintf call returns the record length and leaves the buffer holding the text printed so far plus the record |
| RcuLinkedList.PrintRecords | sync/rcu/rcu-linked-list.c:78-82 | the show loop returns the total printed length and leaves the buffer holding every record in list order, a NUL, and the untouched bytes |
| RcuLinkedList.DogRegistry.Show | sync/rcu/rcu-linked-list.c:67-87 | the first nbytes bytes copied out are every listed record in order, nbytes is their total length, a NUL and the stale bytes follow, and the list is not changed |
| RcuLinkedList.ParseFields | sync/rcu/rcu-linked-list.c:107-127 | fewer than three tokens is -EINVAL; otherwise success exactly when age and flag are in-range numerals of base 10 and 2, with breed the first token, age its decimal value, and the flag set exactly when its binary value is non-zero; the age's kstrtoint error is returned first, then the flag's; a numeral out of int range gives -ERANGE |
| RcuLinkedList.ParseDog | sync/rcu/rcu-linked-list.c:105-115 | a record parsed from at most 64 bytes has a comma-free, NUL-free breed of at most 64 bytes |
| RcuLinkedList.StoreOutcome | sync/rcu/rcu-linked-list.c:102-120 | the outcome of a write: -ENOMEM when the copy fails, the parser's error, -ENOMEM when the record cannot be allocated, otherwise the parsed record |
| RcuLinkedList.DecimalHasNoComma | sync/rcu/rcu-linked-list.c:80 | what `%d` prints holds no comma and no NUL |
| RcuLinkedList.FieldsOfThree | sync/rcu/rcu-linked-list.c:105-106 | three comma-free tokens joined by commas split back into those three tokens |
| RcuLinkedList.FieldsOfEncode | sync/rcu/rcu-linked-list.c:105-106 | an encoded record, with or without a final newline, splits into breed, decimal age and flag |
| RcuLinkedList.EncodeIsCString | sync/rcu/rcu-linked-list.c:102 | an encoded record holds no NUL |
| RcuLinkedList.FlagParses | sync/rcu/rcu-linked-list.c:113 | the flag text 1 or 0, with or without a newline, reads in base 2 as 1 or 0 |
| RcuLinkedList.ParseEncode | sync/rcu/rcu-linked-list.c:105-127 | parsing the encoding of a well-formed record gives that record back |
| RcuLinkedList.StoreEncode | sync/rcu/rcu-linked-list.c:102-127 | an encoded record that fits in 64 bytes is copied whole, has three tokens, and is stored as that record when both allocations succeed |
| RcuLinkedList.TrueIsNotBinary | sync/rcu/rcu-linked-list.c:113 | the word true is not a binary numeral: -EINVAL |
| RcuLinkedList.WordFlagRejected | sync/rcu/rcu-linked-list.c:113-114 | a write with the word true as its flag is rejected with -EINVAL |
| RcuLinkedList.MissingFieldsRejected | sync/rcu/rcu-linked-list.c:107-108 | every write with fewer than two commas, hence fewer than three tokens, is rejected with -EINVAL |
| RcuLinkedList.AgeOutOfRangeRejected | sync/rcu/rcu-linked-list.c:110-112 | a write whose age is a decimal numeral outside the int range is rejected with -ERANGE, whatever its flag |
| RcuLinkedList.ListFirstEntry | sync/rcu/rcu-linked-list.c:170-171 | the first-entry pointer is never NULL; it is the list head itself exactly when the list is empty |
| RcuLinkedList.ListFirstEntryOrNull | sync/rcu/rcu-linked-list.c:170-171 | the checked first-entry pointer is NULL exactly on an empty list, and otherwise the head entry |
| RcuLinkedList.DogRegistry.constructor | sync/rcu/rcu-linked-list.c:60-64 | the registry starts empty with a zero counter and no record stored or freed |
| RcuLinkedList.DogRegistry.Store | sync/rcu/rcu-linked-list.c:90-134 | on success the whole count is returned, the parsed record is appended at the tail with earlier records unchanged, and the counter grows by one modulo 2^64; on each error (both -ENOMEM paths, -EINVAL, -ERANGE) that code is returned and nothing changes; `Valid` is kept |
| RcuLinkedList.DogRegistry.AddTail | sync/rcu/rcu-linked-list.c:128-132 | the record goes to the tail, the counter grows by one modulo 2^64, and the record is logged as stored |
| RcuLinkedList.DogRegistry.TimerRemoveDog | sync/rcu/rcu-linked-list.c:162-184 | on a non-empty list exactly the oldest record is removed and handed to deferred freeing once, the rest keep their order, and the counter is unchanged |
| RcuLinkedList.DogRegistry.TimerRemoveDogChecked | sync/rcu/rcu-linked-list.c:62-63 | the corrected tick: no change on an empty list; otherwise the oldest record is removed and freed and the counter goes down by one, so a counter equal to the list length stays equal |
| RcuLinkedList.FirstInFirstOut | sync/rcu/rcu-linked-list.c:130 | two stored records leave in insertion order: after one tick only the second is listed and the first has been freed |
| RcuLinkedList.CounterDriftAsWritten | sync/rcu/rcu-linked-list.c:131 | as written, one store then one tick leaves the counter at 1 with no record listed |
| RcuLinkedList.CounterTracksCorrected | sync/rcu/rcu-linked-list.c:62-63 | with the corrected tick, one store then two ticks leave the counter at 0 with no record listed |

## Left out

- RCU itself is not modelled: `rcu_read_lock`, the publication order of `list_add_tail_rcu` and `list_del_rcu`, and the grace period of `kfree_rcu`. Deferred freeing is the ghost log `reclaimed`.
- The spinlock is not modelled; it only justifies treating every operation as one atomic step.
- Timer plumbing is not modelled: `setup_timer`, the re-arming `mod_timer` at line 186, and `del_timer_sync`.
- sysfs and kobject registration and module init and exit (lines 136-152 and 189-243) are not modelled; they are calls into kernel code not shown.
- The leak of `ibuf` on every error path is not modelled, nor is the breed pointing into the duplicated buffer; a record holds its breed as a value.
- The other files of the repository (crypto, mm, drivers, data and locking examples, oops, fs) are not part of this model. They are thin wrappers over kernel interfaces not shown, or a single fixed append that the registry already covers.
- `kstrndup`, `strsep`, `kstrtoint` and `snprintf` belong to the kernel library, which is not part of the repository. They are modelled from their documented behaviour, limited to what the module uses.
- Kstrtox.Kstrtoint: only the bases 2 and 10 that the module uses are modelled (no `0x` prefix or base 0 detection); `-0` is accepted, as current kernels do.
- RcuLinkedList.DogRegistry.Store: requires at most three comma-separated fields in the copied write; a fourth token would overrun `dog_attr[3]` at line 106, so such writes are not modelled.
- RcuLinkedList.DogRegistry.Show: requires the printed records to total at most 63 bytes, because `snprintf` is always told 64 bytes at line 79 and a second or later record that does not fit is written past `ibuf`. The precondition also excludes the well-defined case of a single record longer than 63 bytes, which is cut to 63 bytes plus a NUL while its full length is returned; that case is not modelled. Where `buf` lives is not modelled; the 64 bytes copied out are returned.
- RcuLinkedList.DogRegistry.TimerRemoveDog: requires a non-empty list; on an empty one the test at line 171 cannot stop the removal (see Findings), and what follows is not modelled.
- `PR_DEBUG` logging is not modelled.

## Findings

| source | as written | input that shows it | evidently intended | confidence | as-written member | corrected member |
|---|---|---|---|---|---|---|
| sync/rcu/rcu-linked-list.c:170-171 | `list_first_entry` never yields NULL, so `if (entry)` always passes | a timer tick when the list is empty: the list head itself is unlinked and passed to `kfree_rcu` | nothing happens on an empty list, as with `list_first_entry_or_null` | high, not executed | RcuLinkedList.ListFirstEntry | RcuLinkedList.DogRegistry.TimerRemoveDogChecked |
| sync/rcu/rcu-linked-list.c:174-183 | the tick removes a record but never decrements `dog_list_size`, although lines 62-63 say it must follow every removal | one store of `Rex,24,1` then one tick: the counter is 1 and no record is listed | the tick decrements the counter, which keeps counting the listed records | high, not executed | RcuLinkedList.CounterDriftAsWritten | RcuLinkedList.CounterTracksCorrected |
