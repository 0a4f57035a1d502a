# xattr.php: portable extended attributes, modelled in Dafny

The repository is a PHP extension that reads, writes, removes and lists
extended attributes of files. A portability layer (`isdk_xattr.c`) gives the
same eight C calls (`xattr_getxattr`, `xattr_setxattr`, `xattr_removexattr`,
`xattr_listxattr` and their descriptor forms `xattr_f*`) on FreeBSD, Linux,
Solaris and macOS; the PHP functions in `xattr.c` sit on top of it.

The model covers the parts of that code that decide something:

- `Names` (names.dfy): the canonical name listing. Each name is followed
  by one NUL byte. The module defines `strlen` and the split of a listing
  into its names.
- `BsdList` (bsd_list.dfy): `convert_bsd_list`. It rewrites FreeBSD's
  length-prefixed records in place into the canonical listing. The model
  is an array method with a loop, proved against the function `Convert`.
- `Options` (options.dfy): the option bits and the table of which options
  each operation accepts.
- `Backend` (backend.dfy): the sixteen FreeBSD and Linux wrappers. Each
  one is a decision to refuse with -1 or to make one native call with
  translated flags. The module also has the FreeBSD result handling, the
  FreeBSD listing path and `IsXattrExists`.
- `Solaris` (solaris.dfy): the directory-listing accumulator of
  `xattr_xflistxattr` and the short-write loop of `xattr_fsetxattr`, both
  as methods with loops.
- `Binding` (binding.dfy): flag masking, the probe-then-fetch pattern of
  `xattr_get`, the answers of `xattr_set`, `xattr_remove` and
  `xattr_supported`, and the split loop of `xattr_list`.

Native calls are not modelled. Their results are parameters: one integer
per call; for Solaris, the sequence of entry names `readdir` yields and
the sequence of `write` results; and the bytes a call leaves in a buffer.

Three behaviours of the code are worth stating plainly, because a reader
might expect otherwise:
- A wrapper that refuses its options returns -1 without setting `errno`, so
  the caller sees whatever `errno` held before.
- Linux `xattr_fsetxattr` accepts no-follow on a descriptor and refuses
  create, unlike the other FreeBSD and Linux descriptor wrappers (see
  Findings).
- Solaris `xattr_fsetxattr` and `xattr_setxattr` do not check their
  options at all.

## Model

| member | source | states |
|---|---|---|
| Names.StrLen | xattr.c:357 | `strlen`: the result is the index of a NUL byte, and every byte before it is non-NUL |
| Names.SplitConcat | xattr.c:356-362 | the pieces of a split, joined end to end, give back the whole buffer |
| Names.SplitElements | xattr.c:356-362 | each piece of a split is one name followed by exactly one NUL |
| Names.SplitCanonical | xattr.c:356-362 | a listing of NUL-free names ends in NUL and splits back into exactly those names, each with its NUL |
| Names.CanonicalLength | xattr.c:356-362 | a listing takes as many bytes as the sum of each name's length plus one |
| Names.CanonicalAppend | isdk_xattr.c:427-430 | the listing of two name lists, one after the other, is the two listings one after the other |
| Names.TotalSizeAppend | isdk_xattr.c:426-431 | the listing size of two name lists is the sum of their sizes |
| Names.StrLenAt | xattr.c:357 | `strlen` stops at the first NUL: a NUL with no NUL before it is the result |
| Names.SplitHead | xattr.c:356-362 | a NUL-free name, its NUL and a NUL-ended rest split as that name with its NUL, then the split of the rest |
| BsdList.RecordsOfPrefixed | isdk_xattr.c:52-57 | writing names (each shorter than 256 bytes) as length-prefixed records and reading them back gives the same names |
| BsdList.PrefixedOfRecords | isdk_xattr.c:52-57 | a run of records that exactly fills its bytes is the encoding of the names it holds |
| BsdList.TilesAppend | isdk_xattr.c:60-64 | two record runs placed one after the other form a record run, and its names are the two runs' names in order |
| BsdList.ConvertLength | isdk_xattr.c:57-66 | the conversion keeps the buffer length |
| BsdList.RecordsSize | isdk_xattr.c:57-66 | the record run and the canonical listing of its names have the same length |
| BsdList.RecordKeepsPlace | isdk_xattr.c:62-63 | for the record at `o`: its name bytes end up one position to the left, at `o`, and a NUL lands at `o + length` |
| BsdList.OneRecord | isdk_xattr.c:61-63 | a single record whose length byte counts the rest of it converts to its name followed by one NUL |
| BsdList.ConvertAppend | isdk_xattr.c:57-66 | converting two record runs laid one after the other gives the two conversions one after the other |
| BsdList.FirstRecord | isdk_xattr.c:61-64 | at a record boundary `offset`, the record ends inside the run, its name is the first of the remaining names, and the run still tiles after it |
| BsdList.ConvertSplitAt | isdk_xattr.c:57-66 | converting two record runs laid end to end gives the two conversions end to end |
| BsdList.ShiftLeft | isdk_xattr.c:62 | `memmove` one position left: `count` bytes move from `at+1` to `at`; every other byte stays |
| BsdList.PlaceName | isdk_xattr.c:62-63 | the name moves one place left and a NUL is written after it |
| BsdList.ConvertingStart | isdk_xattr.c:59 | before the loop, with `offset` 0, nothing is converted and the buffer is the input |
| BsdList.LoopRead | isdk_xattr.c:60-61 | inside the loop, the length byte at `offset` is still the original one, and its record ends before `size` |
| BsdList.LoopStep | isdk_xattr.c:60-64 | one iteration: the bytes before `offset + length + 1` are the conversion of the records so far; every byte after that is still the input |
| BsdList.ConvertingEnd | isdk_xattr.c:60-65 | when `offset` reaches `size`, the first `size` bytes are the conversion and the bytes after `size` are unchanged |
| BsdList.ConvertBsdList | isdk_xattr.c:57-66 | in place: the first `size` bytes become the canonical listing of the records' names; no byte after `size` changes |
| BsdList.SignedLength | isdk_xattr.c:61 | `(int)` of a plain `char`: bytes below 128 keep their value; bytes of 128 or more become negative |
| BsdList.LongNameMisread | isdk_xattr.c:61 | a valid run holding one 200-byte name: read as signed, its length is -56, so `memmove` gets the count `(size_t)-56` and the NUL lands 56 bytes before the buffer; the unsigned reading converts the record to its name and a NUL |
| Options.LegalOneFlag | isdk_xattr.c:72-73 | get, remove and list accept exactly the option words 0 and no-follow (get also needs offset 0), and a descriptor refuses no-follow |
| Options.LegalSetWords | isdk_xattr.c:94-110 | set accepts offset 0 and, once no-follow is cleared, nothing, create or replace; a descriptor refuses no-follow |
| Options.RootRefused | isdk_xattr.c:72-73 | no operation accepts the root selector or no-security |
| Backend.FreeBsdGet | isdk_xattr.c:68-85 | matches the table: -1 unless position is 0 and options are 0 or no-follow; no-follow picks the link call |
| Backend.FreeBsdSet | isdk_xattr.c:87-119 | matches the table; create and replace are accepted and not passed on |
| Backend.FreeBsdRemove | isdk_xattr.c:130-144 | matches the table for remove by path |
| Backend.FreeBsdList | isdk_xattr.c:147-161 | matches the table for list by path |
| Backend.FreeBsdFGet | isdk_xattr.c:170-184 | matches the table; no-follow on a descriptor is refused |
| Backend.FreeBsdFSet | isdk_xattr.c:186-213 | matches the table; no-follow on a descriptor is refused |
| Backend.FreeBsdFRemove | isdk_xattr.c:224-238 | matches the table; no-follow on a descriptor is refused |
| Backend.FreeBsdFList | isdk_xattr.c:241-255 | matches the table; no-follow on a descriptor is refused |
| Backend.LinuxGet | isdk_xattr.c:459-468 | matches the table for get by path |
| Backend.LinuxSet | isdk_xattr.c:470-489 | matches the table; create and replace become Linux's XATTR_CREATE and XATTR_REPLACE |
| Backend.LinuxRemove | isdk_xattr.c:491-500 | matches the table for remove by path |
| Backend.LinuxList | isdk_xattr.c:503-512 | matches the table for list by path |
| Backend.LinuxFGet | isdk_xattr.c:514-523 | matches the table; no-follow on a descriptor is refused |
| Backend.LinuxFSet | isdk_xattr.c:525-544 | as written: the call is made exactly when the options are legal for a set by path and do not include create |
| Backend.LinuxFSetIntended | isdk_xattr.c:525-544 | corrected: matches the table, so no-follow on a descriptor is refused and create is passed on as XATTR_CREATE |
| Backend.LinuxFSetFinding | isdk_xattr.c:530-539 | no-follow reaches `fsetxattr`, which the table refuses; create is refused, which the table accepts |
| Backend.LinuxFRemove | isdk_xattr.c:546-555 | matches the table; no-follow on a descriptor is refused |
| Backend.LinuxFList | isdk_xattr.c:558-567 | matches the table; no-follow on a descriptor is refused |
| Backend.Decide | isdk_xattr.c:68-262 | dispatches to the FreeBSD wrappers (isdk_xattr.c:68-262) and the Linux wrappers (isdk_xattr.c:459-567); every wrapper but Linux `xattr_fsetxattr` follows the table; that one follows its as-written decision |
| Backend.Complete | isdk_xattr.c:121-127 | refused: -1. Called: the sign of the native result is kept; FreeBSD's set turns any byte count into 0; every other result is passed on unchanged |
| Backend.Invoke | isdk_xattr.c:68-262 | over the FreeBSD wrappers (isdk_xattr.c:68-262) and the Linux wrappers (isdk_xattr.c:459-567): an illegal call returns -1 and a legal call succeeds exactly when its native call does, except Linux `xattr_fsetxattr`, which returns the native result whenever a set by path would be legal and create is absent (no-follow included) and -1 otherwise |
| Backend.SetResultUniform | isdk_xattr.c:121-127 | a legal set returns 0 on success and -1 on failure on both platforms |
| Backend.IsXattrExists | isdk_xattr.c:580-584 | true exactly when the zero-capacity get probe returns a non-negative result |
| Backend.FreeBsdListXattr | isdk_xattr.c:147-168 | returns the native count unchanged, or -1 when refused. A positive count with a real buffer converts exactly that many bytes in place; otherwise the buffer is untouched |
| Solaris.VisibleCounts | isdk_xattr.c:423-425 | every entry except "." and ".." is kept, as often as it occurs |
| Solaris.VisibleAppend | isdk_xattr.c:422-425 | filtering a directory read in two parts is filtering each part |
| Solaris.Fit | isdk_xattr.c:427-430 | the names written form a prefix whose listing fits the capacity; the next name, if any, does not fit after it |
| Solaris.FitAll | isdk_xattr.c:427-430 | when the whole listing fits, every name is written |
| Solaris.FitSnoc | isdk_xattr.c:427-431 | once a name does not fit, the running total already exceeds the capacity, so no later name is written |
| Solaris.TotalSizeSnoc | isdk_xattr.c:426-431 | one more name adds its length plus one to the running total |
| Solaris.VisibleSnoc | isdk_xattr.c:422-425 | reading one more entry adds it to the kept names, unless it is "." or ".." |
| Solaris.FilledPrefix | isdk_xattr.c:427-431 | when all names so far fit, the buffer starts with their listing and every byte after it is the original one |
| Solaris.FilledExtend | isdk_xattr.c:427-430 | a name that fits after the running total extends the buffer's listing by that name and a NUL, and leaves the rest as it was |
| Solaris.PutName | isdk_xattr.c:428-429 | the name and a NUL are written at the offset; no other byte changes |
| Solaris.FilledStep | isdk_xattr.c:427-431 | writing a name that fits at the running total extends the listing in the buffer by that name |
| Solaris.FilledSkip | isdk_xattr.c:427-431 | a name that does not fit leaves the buffer as it was |
| Solaris.XfListXattr | isdk_xattr.c:411-435 | -1 if the directory cannot be opened. Otherwise returns the full listing size, whatever the capacity; the buffer holds the listing of the names that fit, and no byte past it changes |
| Solaris.ListingComplete | isdk_xattr.c:411-435 | when the returned size is within the capacity, the buffer starts with the complete listing, which splits back into the names |
| Solaris.Delivered | isdk_xattr.c:342-350 | the loop never delivers more than the value's size |
| Solaris.CompletesIffDelivered | isdk_xattr.c:342-352 | the loop reaches 0 remaining bytes exactly when every byte has been delivered |
| Solaris.WriteValue | isdk_xattr.c:342-352 | returns 0 or -1: 0 exactly when all bytes are written; -1 at the first failed write. The file holds the value's prefix written so far, with no rollback |
| Binding.MaskSetFlags | xattr.c:130 | keeps the root selector, no-follow, create and replace as the caller gave them; clears every other bit |
| Binding.MaskGetFlags | xattr.c:183 | keeps the root selector and no-follow as the caller gave them; clears every other bit |
| Binding.XattrSet | xattr.c:130-155 | false exactly when the masked options are illegal for a set at offset 0 or the native call returns -1; the root selector always gives false |
| Binding.XattrRemove | xattr.c:289-314 | false exactly when the masked options are illegal for remove or the native call returns -1; the root selector always gives false |
| Binding.XattrGet | xattr.c:183-221 | a string exactly when both backend calls succeed. Its length is the probed size and it begins with the bytes the fetch wrote, even when the fetch reports more than was probed (the attribute grew in between); it equals them when the fetch returns the probed size |
| Binding.XattrSupported | xattr.c:246-263 | true exactly when the unmasked probe succeeds; false exactly when it fails with "not supported"; null otherwise |
| Binding.SplitStep | xattr.c:357-360 | one turn of the split loop: the element taken at `i` runs through its NUL, and what follows it is again a NUL-ended run |
| Binding.SplitNames | xattr.c:349-362 | one element per name, each the name with its NUL; the elements joined end to end give back the buffer |
| Binding.XattrList | xattr.c:341-381 | an array exactly when both calls succeed, holding the split of the buffer. False when the probe fails with `errno` set; null in every other case |
| Binding.ListRoundTrip | isdk_xattr.c:163-165 | on FreeBSD, splitting a converted record run gives back every record's name with its NUL |

## Left out

- The native calls themselves (`extattr_*`, the `getxattr` family, `open`, `openat`, `attropen`, `lseek`, `fstat`, `read`, `write`, `unlinkat`, `fdopendir`, `readdir`, `closedir`) are foreign code. Their results are parameters, and nothing about the attribute store is assumed (no set-then-get law).
- The macOS branch (isdk_xattr.c:569-578) only renames the native functions.
- The Solaris descriptor plumbing is left out: `xattr_fgetxattr`, `xattr_getxattr`, the open sequence of `xattr_fsetxattr`, `xattr_setxattr`, the remove pair, `xattr_flistxattr` and `xattr_listxattr` (isdk_xattr.c:274-340, 355-409, 436-451). These are only open/seek/stat/close sequences and open-flag assembly, including the operator-precedence slip at isdk_xattr.c:367.
- Solaris.XfListXattr: copies each entry name as is. The code passes the name to `snprintf` as the format string, so a name containing `%` would be expanded; that is not modelled.
- Solaris.WriteValue: requires every successful `write` to deliver at least one byte. A `write` that returns 0 would make the loop spin forever.
- The PHP plumbing in xattr.c is left out: argument parsing, the open_basedir and safe_mode checks, `emalloc` and its failure branch, `efree`, the module entry, MINIT/MINFO and the warning texts.
- `errno` is reduced to "none", "not supported" and "other". `xattr_set`, `xattr_get` and `xattr_remove` switch on it only to pick a warning text; only `xattr_supported` and `xattr_list` let it change the returned value.
- Binding.XattrGet: the bytes the second call writes and the buffer's earlier contents are parameters, because `emalloc` memory is uninitialised.
- Binding.XattrList: the buffer after the second call is a parameter. The split requires it to have the probed size and to end in NUL, because the loop runs until `i` equals the probed size. On FreeBSD it is what BsdList.ConvertBsdList produces.
- Backend.FreeBsdListXattr: requires the native listing call to leave whole length-prefixed records in its first `native` bytes. A native call that fills a buffer smaller than the listing (a direct caller with a small buffer, or an attribute added between the probe at xattr.c:341 and the fetch at xattr.c:346) can end the run inside a record; `convert_bsd_list` would then move bytes and write the NUL at or past `offset + length >= rv` (isdk_xattr.c:62-63), possibly past the buffer. That input is excluded, not modelled. The conversion also reads each length byte as unsigned, as BsdList.ConvertBsdList does (see Findings).
- BsdList.ConvertBsdList: requires the first `size` bytes to be whole records, for the same reason as Backend.FreeBsdListXattr.
- Options.Legal: the option word is eight bits wide rather than the C `int`'s 32. Bits 8-31 lie outside every mask the code applies, like bits 5-7, so every wrapper refuses them exactly as it refuses bit 5; the parse of the PHP flag argument into the word is not modelled.
- Sizes are unbounded integers. `ssize_t` and `int` overflow of the running totals is not modelled.
- The test driver (isdk_xattr.c:586-618) depends on `sds` and `testhelp`, which are not part of this model.
- Backend.Decide: keeps Linux `xattr_fsetxattr` as written, because the wrappers in the code behave that way; the corrected decision is Backend.LinuxFSetIntended.

## Findings

| source | as written | input that shows it | evidently intended | confidence | as-written member | corrected member |
|---|---|---|---|---|---|---|
| isdk_xattr.c:61 | the record length is read through plain `char`, which is signed on common targets | one record holding a 200-byte name (FreeBSD allows names up to 255 bytes): the length reads as -56; `memmove` gets the count `(size_t)-56` and the NUL is written at `namebuf[-56]`, before the buffer (`offset` is `size_t`, so it wraps to 2^64-55 and the loop then ends) | read the length byte as unsigned (0 to 255) | high where `char` is signed; not executed | BsdList.LongNameMisread | BsdList.ConvertBsdList |
| isdk_xattr.c:539 | Linux `xattr_fsetxattr` tests the no-follow bit on the option word after clearing it and translating create/replace to Linux's values | options = no-follow (0x1): accepted, and `fsetxattr` is called. options = create (0x2): translated to XATTR_CREATE = 0x1, then refused | test the saved `nofollow`, as the FreeBSD descriptor wrapper does | high; not executed | Backend.LinuxFSetFinding | Backend.LinuxFSetIntended |
