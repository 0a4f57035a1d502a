/** The two loops of the Solaris emulation layer (isdk_xattr.c:264-451):
    the listing accumulator of `xattr_xflistxattr` and the write loop of
    `xattr_fsetxattr`. The attribute directory and the `write` calls are
    outside the model: the directory arrives as the sequence of entry names
    `readdir` yields, and each `write` as the count it returned. */
module Solaris {
  import opened Names

  datatype Option<T> = None | Some(value: T)

  /** The directory entries "." and "..". */
  const DOT: seq<byte> := [46]
  const DOTDOT: seq<byte> := [46, 46]

  // ------------------------------------------------------------ listing

  /** The entries of an attribute directory other than "." and "..", in
      directory order. */
  function Visible(entries: seq<seq<byte>>): seq<seq<byte>> {
    if entries == [] then []
    else if entries[0] == DOT || entries[0] == DOTDOT then Visible(entries[1..])
    else [entries[0]] + Visible(entries[1..])
  }

  /** Every entry except "." and ".." is kept, as often as it occurs. */
  lemma {:induction false} VisibleCounts(entries: seq<seq<byte>>)
    ensures forall e :: multiset(Visible(entries))[e]
                        == if e == DOT || e == DOTDOT then 0 else multiset(entries)[e]
  {
    if entries != [] {
      assert entries == [entries[0]] + entries[1..];
      VisibleCounts(entries[1..]);
    }
  }

  lemma {:induction false} VisibleAppend(a: seq<seq<byte>>, b: seq<seq<byte>>)
    ensures Visible(a + b) == Visible(a) + Visible(b)
  {
    if a == [] {
      assert a + b == b;
    } else {
      assert (a + b)[0] == a[0];
      assert (a + b)[1..] == a[1..] + b;
      VisibleAppend(a[1..], b);
    }
  }

  /** The longest prefix of `names` whose listing fits in `room` bytes. */
  function Fit(names: seq<seq<byte>>, room: nat): (f: seq<seq<byte>>)
    ensures f <= names
    ensures TotalSize(f) <= room
    ensures |f| < |names| ==> TotalSize(f) + |names[|f|]| + 1 > room
  {
    if names == [] || |names[0]| + 1 > room then []
    else
      var f := [names[0]] + Fit(names[1..], room - |names[0]| - 1);
      assert f[1..] == Fit(names[1..], room - |names[0]| - 1);
      assert |f| < |names| ==> names[|f|] == names[1..][|f| - 1];
      f
  }

  /** Everything fits once the whole listing does. */
  lemma {:induction false} FitAll(names: seq<seq<byte>>, room: nat)
    requires TotalSize(names) <= room
    ensures Fit(names, room) == names
  {
    if names != [] {
      FitAll(names[1..], room - |names[0]| - 1);
    }
  }

  /** A name that does not fit after `names` leaves the fitting prefix as it was. */
  lemma {:induction false} FitSnoc(names: seq<seq<byte>>, e: seq<byte>, room: nat)
    requires TotalSize(names) + |e| + 1 > room
    ensures Fit(names + [e], room) == Fit(names, room)
  {
    if names == [] {
      assert names + [e] == [e];
    } else {
      assert (names + [e])[0] == names[0];
      assert (names + [e])[1..] == names[1..] + [e];
      if |names[0]| + 1 <= room {
        FitSnoc(names[1..], e, room - |names[0]| - 1);
      } else {
        assert Fit(names + [e], room) == [];
        assert Fit(names, room) == [];
      }
    }
  }

  /** A buffer holding the listing of the names that fit in its first `room`
      bytes, with everything after that listing as it was. */
  ghost function Filled(before: seq<byte>, names: seq<seq<byte>>, room: nat): (buf: seq<byte>)
    requires room <= |before|
    ensures |buf| == |before|
  {
    var f := Fit(names, room);
    CanonicalLength(f);
    Canonical(f) + before[TotalSize(f)..]
  }

  /** Writes one name and its NUL at `at`, as `snprintf(buf + at, |name| + 1, name)`
      does for a name with no conversion in it. */
  method PutName(buf: array<byte>, at: nat, name: seq<byte>)
    requires at + |name| + 1 <= buf.Length
    modifies buf
    ensures buf[..] == old(buf[..at]) + name + [NUL] + old(buf[at + |name| + 1..])
  {
    forall j | 0 <= j < |name| {
      buf[at + j] := name[j];
    }
    buf[at + |name|] := NUL;
  }

  /** The buffer after the next name is written at `at`, the end of the listing so far. */
  lemma {:induction false} FilledStep(before: seq<byte>, names: seq<seq<byte>>, e: seq<byte>, room: nat, at: nat, buf: seq<byte>)
    requires room <= |before| && at == TotalSize(names) && at + |e| + 1 <= room
    requires buf == Filled(before, names, room)
    ensures |buf| == |before|
    ensures buf[..at] + e + [NUL] + buf[at + |e| + 1..] == Filled(before, names + [e], room)
  {
    FilledPrefix(before, names, room, at, buf);
    FilledExtend(before, names, e, room, at);
  }

  lemma {:induction false} FilledPrefix(before: seq<byte>, names: seq<seq<byte>>, room: nat, at: nat, buf: seq<byte>)
    requires room <= |before| && at == TotalSize(names) <= room
    requires buf == Filled(before, names, room)
    ensures buf[..at] == Canonical(names)
    ensures forall j :: at <= j < |buf| ==> buf[j] == before[j]
  {
    FitAll(names, room);
    CanonicalLength(names);
    assert buf == Canonical(names) + before[at..];
  }

  lemma {:induction false} FilledExtend(before: seq<byte>, names: seq<seq<byte>>, e: seq<byte>, room: nat, at: nat)
    requires room <= |before| && at == TotalSize(names) && at + |e| + 1 <= room
    ensures Filled(before, names + [e], room) == Canonical(names) + e + [NUL] + before[at + |e| + 1..]
  {
    var grown := names + [e];
    assert TotalSize(grown) == at + |e| + 1 by {
      TotalSizeSnoc(names, e);
    }
    assert Fit(grown, room) == grown by {
      FitAll(grown, room);
    }
    assert Canonical(grown) == Canonical(names) + e + [NUL] by {
      CanonicalAppend(names, [e]);
      assert Canonical([e]) == e + [NUL] + Canonical([]);
    }
  }

  lemma {:induction false} TotalSizeSnoc(names: seq<seq<byte>>, e: seq<byte>)
    ensures TotalSize(names + [e]) == TotalSize(names) + |e| + 1
  {
    TotalSizeAppend(names, [e]);
    assert TotalSize([e]) == |e| + 1 + TotalSize([]);
  }

  /** One more directory entry read: "." and ".." add nothing. */
  lemma {:induction false} VisibleSnoc(entries: seq<seq<byte>>, i: nat)
    requires i < |entries|
    ensures Visible(entries[..i + 1])
            == Visible(entries[..i]) + (if entries[i] == DOT || entries[i] == DOTDOT then [] else [entries[i]])
  {
    assert entries[..i + 1] == entries[..i] + [entries[i]];
    VisibleAppend(entries[..i], [entries[i]]);
    assert Visible([entries[i]]) == (if entries[i] == DOT || entries[i] == DOTDOT then [] else [entries[i]]) + Visible([]);
  }

  lemma {:induction false} FilledSkip(before: seq<byte>, names: seq<seq<byte>>, e: seq<byte>, room: nat)
    requires room <= |before| && TotalSize(names) + |e| + 1 > room
    ensures Filled(before, names + [e], room) == Filled(before, names, room)
  {
    FitSnoc(names, e, room);
  }

  /** `xattr_xflistxattr`: lists the attribute directory into `namebuf`.
      `None` stands for a directory that could not be opened. The result is
      the size the whole listing needs, whatever the capacity; the buffer
      receives the names that fit, in order, and nothing past them changes. */
  method XfListXattr(dir: Option<seq<seq<byte>>>, namebuf: array?<byte>, size: nat) returns (r: int)
    requires namebuf == null ==> size == 0
    requires namebuf != null ==> size <= namebuf.Length
    requires dir.Some? ==> AllNulFree(dir.value)
    modifies namebuf
    ensures dir.None? ==> r == -1 && (namebuf != null ==> namebuf[..] == old(namebuf[..]))
    ensures dir.Some? ==> r == TotalSize(Visible(dir.value))
    ensures dir.Some? && namebuf != null ==> namebuf[..] == Filled(old(namebuf[..]), Visible(dir.value), size)
  {
    if dir.None? {
      return -1;
    }
    var entries := dir.value;
    ghost var before := if namebuf == null then [] else namebuf[..];
    var nsize: nat := 0;
    var i := 0;
    ghost var seen: seq<seq<byte>> := [];
    while i < |entries|
      invariant i <= |entries| && seen == Visible(entries[..i])
      invariant nsize == TotalSize(seen)
      invariant namebuf != null ==> namebuf[..] == Filled(before, seen, size)
    {
      var name := entries[i];
      if name != DOT && name != DOTDOT {
        assert Visible(entries[..i + 1]) == seen + [name] by {
          VisibleSnoc(entries, i);
        }
        assert TotalSize(seen + [name]) == nsize + |name| + 1 by {
          TotalSizeSnoc(seen, name);
        }
        if nsize + |name| + 1 <= size {
          ghost var cur := namebuf[..];
          assert cur[..nsize] + name + [NUL] + cur[nsize + |name| + 1..]
                 == Filled(before, seen + [name], size) by {
            FilledStep(before, seen, name, size, nsize, cur);
          }
          PutName(namebuf, nsize, name);
        } else if namebuf != null {
          assert Filled(before, seen + [name], size) == Filled(before, seen, size) by {
            FilledSkip(before, seen, name, size);
          }
        }
        seen := seen + [name];
        nsize := nsize + |name| + 1;
      } else {
        assert Visible(entries[..i + 1]) == seen by {
          VisibleSnoc(entries, i);
          assert seen + [] == seen;
        }
      }
      i := i + 1;
    }
    assert entries[..i] == entries;
    r := nsize;
  }

  /** A listing reported no larger than the capacity is complete: the buffer
      starts with the canonical listing of every visible entry, which splits
      back into those entries. */
  lemma {:induction false} ListingComplete(before: seq<byte>, names: seq<seq<byte>>, room: nat)
    requires room <= |before| && TotalSize(names) <= room && AllNulFree(names)
    ensures Filled(before, names, room)[..TotalSize(names)] == Canonical(names)
    ensures NulEnded(Canonical(names)) && Split(Canonical(names)) == Terminated(names)
  {
    FitAll(names, room);
    CanonicalLength(names);
    SplitCanonical(names);
  }

  // ------------------------------------------------------------ writing

  /** The `write` results a loop over `size` bytes receives are those of a
      `write` call: -1 for failure, or a count of at least one byte and at
      most what was asked; there are enough of them for the loop to stop. */
  predicate Feasible(writes: seq<int>, size: nat)
    decreases size
  {
    size == 0
    || (|writes| > 0
        && (writes[0] == -1
            || (0 < writes[0] <= size && Feasible(writes[1..], size - writes[0]))))
  }

  /** How many bytes reach the attribute before the loop stops. */
  function Delivered(writes: seq<int>, size: nat): (n: nat)
    requires Feasible(writes, size)
    ensures n <= size
    decreases size
  {
    if size == 0 || writes[0] == -1 then 0
    else writes[0] + Delivered(writes[1..], size - writes[0])
  }

  /** Whether every byte is written before any `write` fails. */
  predicate Completes(writes: seq<int>, size: nat)
    requires Feasible(writes, size)
    decreases size
  {
    size == 0 || (writes[0] != -1 && Completes(writes[1..], size - writes[0]))
  }

  /** The loop completes exactly when all bytes are delivered. */
  lemma {:induction false} CompletesIffDelivered(writes: seq<int>, size: nat)
    requires Feasible(writes, size)
    ensures Completes(writes, size) <==> Delivered(writes, size) == size
    decreases size
  {
    if size != 0 && writes[0] != -1 {
      CompletesIffDelivered(writes[1..], size - writes[0]);
    }
  }

  /** The write loop of `xattr_fsetxattr`: `writes` are the results of the
      successive `write` calls. Returns 0 once every byte of `value` is
      written, or -1 at the first failed write; `file` is what reached the
      (truncated) attribute file, which the failure does not roll back. */
  method WriteValue(value: seq<byte>, writes: seq<int>) returns (r: int, file: seq<byte>)
    requires Feasible(writes, |value|)
    ensures r == 0 || r == -1
    ensures r == 0 <==> Completes(writes, |value|)
    ensures file == value[..Delivered(writes, |value|)]
  {
    var size: nat := |value|;
    var pos := 0;
    var k := 0;
    file := [];
    while size > 0
      invariant pos + size == |value| && k <= |writes|
      invariant Feasible(writes[k..], size)
      invariant file == value[..pos]
      invariant Delivered(writes, |value|) == pos + Delivered(writes[k..], size)
      invariant Completes(writes, |value|) == Completes(writes[k..], size)
      decreases size
    {
      var bytes := writes[k];
      if bytes == -1 {
        return -1, file;
      }
      assert writes[k..][1..] == writes[k + 1..];
      file := file + value[pos..pos + bytes];
      size := size - bytes;
      pos := pos + bytes;
      k := k + 1;
    }
    return 0, file;
  }
}
