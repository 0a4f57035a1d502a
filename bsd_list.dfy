/** FreeBSD's attribute listing and its in-place conversion to the canonical
    NUL-terminated run (`convert_bsd_list`, isdk_xattr.c:57-66).

    `extattr_list_*` returns a run of records, each a length byte followed by
    that many name bytes and no terminator. The conversion slides every name
    one byte to the left over its own length byte and writes a NUL after it,
    so the run keeps its length and every record keeps its place. */
module BsdList {
  import opened Names

  /** `s` is exactly a run of records: a length byte, then that many name bytes. */
  predicate Tiles(s: seq<byte>)
    decreases |s|
  {
    s == [] || (s[0] < |s| && Tiles(s[1 + s[0]..]))
  }

  /** The names held by the records of `s`, in order. */
  function Records(s: seq<byte>): seq<seq<byte>>
    requires Tiles(s)
    decreases |s|
  {
    if s == [] then [] else [s[1..1 + s[0]]] + Records(s[1 + s[0]..])
  }

  /** Names a one-byte length can describe. */
  predicate Encodable(names: seq<seq<byte>>) {
    forall k :: 0 <= k < |names| ==> |names[k]| < 256
  }

  /** The length-prefixed encoding of `names`: the format `extattr_list_*` produces. */
  function Prefixed(names: seq<seq<byte>>): seq<byte>
    requires Encodable(names)
  {
    if names == [] then []
    else
      var len: byte := |names[0]|;
      [len] + names[0] + Prefixed(names[1..])
  }

  /** What the conversion leaves in the buffer: the canonical listing of the records' names. */
  function Convert(s: seq<byte>): seq<byte>
    requires Tiles(s)
  {
    Canonical(Records(s))
  }

  /** Decoding the records of an encoded list gives the names back. */
  lemma {:induction false} RecordsOfPrefixed(names: seq<seq<byte>>)
    requires Encodable(names)
    ensures Tiles(Prefixed(names)) && Records(Prefixed(names)) == names
  {
    if names != [] {
      var s := Prefixed(names);
      var n := names[0];
      RecordsOfPrefixed(names[1..]);
      assert s[0] == |n|;
      assert s[1..1 + |n|] == n;
      assert s[1 + |n|..] == Prefixed(names[1..]);
    }
  }

  /** Encoding the records of a well-formed run gives the run back. */
  lemma {:induction false} PrefixedOfRecords(s: seq<byte>)
    requires Tiles(s)
    ensures Encodable(Records(s)) && Prefixed(Records(s)) == s
    decreases |s|
  {
    if s != [] {
      var rest := s[1 + s[0]..];
      PrefixedOfRecords(rest);
      assert s == [s[0]] + s[1..1 + s[0]] + rest;
    }
  }

  /** Two runs of records laid end to end are a run of records, with the names of both. */
  lemma {:induction false} TilesAppend(p: seq<byte>, q: seq<byte>)
    requires Tiles(p) && Tiles(q)
    ensures Tiles(p + q) && Records(p + q) == Records(p) + Records(q)
    decreases |p|
  {
    if p == [] {
      assert p + q == q;
    } else {
      var k: nat := p[0] as int + 1;
      var name := p[1..k];
      var pq := p + q;
      assert pq[k..] == p[k..] + q;
      assert Tiles(p[k..] + q) && Records(p[k..] + q) == Records(p[k..]) + Records(q) by {
        TilesAppend(p[k..], q);
      }
      assert Tiles(pq) && Records(pq) == [name] + Records(p[k..] + q) by {
        assert pq[0] == p[0];
        assert pq[1..k] == name;
      }
      assert Records(p) == [name] + Records(p[k..]);
      AppendAssoc([name], Records(p[k..]), Records(q));
    }
  }

  /** The canonical listing takes as many bytes as the run of records it came from. */
  lemma {:induction false} ConvertLength(s: seq<byte>)
    requires Tiles(s)
    ensures |Convert(s)| == |s|
    decreases |s|
  {
    CanonicalLength(Records(s));
    RecordsSize(s);
  }

  lemma {:induction false} RecordsSize(s: seq<byte>)
    requires Tiles(s)
    ensures TotalSize(Records(s)) == |s|
    decreases |s|
  {
    if s != [] {
      RecordsSize(s[1 + s[0]..]);
    }
  }

  /** A single record converts to its name followed by a NUL. */
  lemma {:induction false} OneRecord(rec: seq<byte>)
    requires |rec| > 0 && rec[0] == |rec| - 1
    ensures Tiles(rec) && Convert(rec) == rec[1..] + [NUL]
  {
    assert rec[1 + rec[0]..] == [];
    assert rec[1..1 + rec[0]] == rec[1..];
    assert Records(rec) == [rec[1..]] + Records([]);
    assert Canonical([rec[1..]]) == rec[1..] + [NUL] + Canonical([]);
  }

  /** Runs laid end to end convert piece by piece. */
  lemma {:induction false} ConvertAppend(p: seq<byte>, q: seq<byte>)
    requires Tiles(p) && Tiles(q)
    ensures Tiles(p + q) && Convert(p + q) == Convert(p) + Convert(q)
  {
    TilesAppend(p, q);
    CanonicalAppend(Records(p), Records(q));
  }

  /** A run cut at a record boundary converts piece by piece. */
  lemma {:induction false} ConvertSplitAt(s: seq<byte>, m: nat)
    requires m <= |s| && Tiles(s[..m]) && Tiles(s[m..])
    ensures Tiles(s) && Convert(s) == Convert(s[..m]) + Convert(s[m..])
  {
    assert s == s[..m] + s[m..];
    ConvertAppend(s[..m], s[m..]);
  }

  /** Where the second part of a concatenation lands: `at` bytes in, behind the first. */
  lemma {:induction false} PlaceOf(front: seq<byte>, rest: seq<byte>, at: nat, n: nat)
    requires |front| == at && n < |rest|
    ensures (front + rest)[at..at + n] == rest[..n]
    ensures (front + rest)[at + n] == rest[n]
  {
    var w := front + rest;
    assert forall j :: 0 <= j < n ==> w[at + j] == rest[j];
  }

  /** The first record of a run, unfolded: its name, then the records after it.
      `len` is the record's length byte. */
  lemma {:induction false} FirstRecord(raw: seq<byte>, o: nat, len: nat, next: nat)
    requires o < |raw| && Tiles(raw[o..]) && len == raw[o] && next == o + len + 1
    ensures next <= |raw| && Tiles(raw[next..])
    ensures Records(raw[o..]) == [raw[o + 1..next]] + Records(raw[next..])
  {
    var rest := raw[o..];
    assert rest[0] == len;
    assert rest[1 + len..] == raw[next..];
    assert rest[1..1 + len] == raw[o + 1..next];
  }

  /** Each record keeps its place: at a record boundary `o` of a run, the converted
      run holds the record's name at `o`, shifted one byte left, and a NUL at `o + length`. */
  lemma {:induction false} RecordKeepsPlace(s: seq<byte>, o: nat)
    requires o < |s| && Tiles(s[..o]) && Tiles(s[o..])
    ensures Tiles(s) && o + s[o] < |s| && |Convert(s)| == |s|
    ensures Convert(s)[o..o + s[o]] == s[o + 1..o + 1 + s[o]]
    ensures Convert(s)[o + s[o]] == NUL
  {
    var len: nat := s[o];
    var next := o + len + 1;
    assert Tiles(s) && next <= |s| && Tiles(s[next..]) by {
      ConvertSplitAt(s, o);
      FirstRecord(s, o, len, next);
    }
    var front := Convert(s[..o]);
    var name := s[o + 1..next];
    var rest := name + [NUL] + Canonical(Records(s[next..]));
    assert |front| == o by {
      ConvertLength(s[..o]);
    }
    assert Convert(s) == front + Convert(s[o..]) by {
      ConvertSplitAt(s, o);
    }
    assert Convert(s[o..]) == rest by {
      var later := Records(s[next..]);
      FirstRecord(s, o, len, next);
      assert ([name] + later)[1..] == later;
    }
    assert |Convert(s)| == |s| by {
      ConvertLength(s);
    }
    assert rest[..len] == name && rest[len] == NUL;
    PlaceOf(front, rest, o, len);
  }

  /** `memmove(buf + at, buf + at + 1, count)`: slides `count` bytes one place to the left. */
  method ShiftLeft(buf: array<byte>, at: nat, count: nat)
    requires at + count < buf.Length
    modifies buf
    ensures buf[..] == old(buf[..at]) + old(buf[at + 1..at + 1 + count]) + old(buf[at + count..])
  {
    var j := 0;
    while j < count
      invariant j <= count
      invariant forall i :: at <= i < at + j ==> buf[i] == old(buf[i + 1])
      invariant forall i :: 0 <= i < buf.Length && !(at <= i < at + j) ==> buf[i] == old(buf[i])
    {
      buf[at + j] := buf[at + j + 1];
      j := j + 1;
    }
    assert buf[..] == old(buf[..at]) + old(buf[at + 1..at + 1 + count]) + old(buf[at + count..]);
  }

  /** The buffer once the record at `at` (of name length `len`) has been moved one
      byte left and terminated: what one iteration of the conversion loop does. */
  ghost function Shifted(s: seq<byte>, at: nat, len: nat): seq<byte>
    requires at + len < |s|
  {
    s[..at] + s[at + 1..at + 1 + len] + [NUL] + s[at + len + 1..]
  }

  /** The invariant of the conversion loop: the buffer holds the canonical listing
      of `names`, the records converted so far, which ends at `o`; from `o` on the
      records not yet converted; past the run the untouched tail. */
  ghost predicate Converting(raw: seq<byte>, tail: seq<byte>, o: nat, names: seq<seq<byte>>, buf: seq<byte>) {
    && Tiles(raw) && o <= |raw| && Tiles(raw[o..])
    && names + Records(raw[o..]) == Records(raw)
    && |Canonical(names)| == o
    && buf == Canonical(names) + raw[o..] + tail
  }

  lemma {:induction false} ConvertingStart(raw: seq<byte>, tail: seq<byte>)
    requires Tiles(raw)
    ensures Converting(raw, tail, 0, [], raw + tail)
  {
    assert raw[0..] == raw;
    assert [] + Records(raw) == Records(raw);
  }

  lemma {:induction false} ConvertingEnd(raw: seq<byte>, tail: seq<byte>, names: seq<seq<byte>>, buf: seq<byte>)
    requires Converting(raw, tail, |raw|, names, buf)
    ensures |buf| == |raw| + |tail|
    ensures buf[..|raw|] == Convert(raw) && buf[|raw|..] == tail
  {
    assert raw[|raw|..] == [];
    assert names + [] == names;
  }

  /** At a record boundary `o` of the loop, the buffer holds the record's length byte,
      and the record ends inside the run. */
  lemma {:induction false} LoopRead(raw: seq<byte>, tail: seq<byte>, o: nat, names: seq<seq<byte>>, buf: seq<byte>)
    requires o < |raw| && Converting(raw, tail, o, names, buf)
    ensures o + raw[o] < |raw| && |buf| == |raw| + |tail| && buf[o] == raw[o]
  {
    FirstRecord(raw, o, raw[o], o + raw[o] + 1);
    assert buf[o] == raw[o..][0];
  }

  /** The loop body keeps its invariant: once the record at `o` has been shifted and
      terminated, its name joins the converted ones and the next boundary is
      `o + len + 1`. */
  lemma {:induction false} LoopStep(raw: seq<byte>, tail: seq<byte>, o: nat, names: seq<seq<byte>>,
                                    before: seq<byte>, len: nat, next: nat, names': seq<seq<byte>>)
    requires o < |raw| && Converting(raw, tail, o, names, before)
    requires len == raw[o] && o + len < |raw|
    requires next == o + len + 1 && names' == names + [raw[o + 1..next]]
    ensures Converting(raw, tail, next, names', Shifted(before, o, len))
  {
    var name := raw[o + 1..next];
    var later := Records(raw[next..]);
    var c := Canonical(names);
    assert Tiles(raw[next..]) && Records(raw[o..]) == [name] + later by {
      FirstRecord(raw, o, len, next);
    }
    assert names' + later == Records(raw) by {
      assert names' + later == names + ([name] + later);
    }
    assert Canonical(names') == c + name + [NUL] by {
      CanonicalAppend(names, [name]);
      assert Canonical([name]) == name + [NUL] + Canonical([]);
    }
    assert Shifted(before, o, len) == c + name + [NUL] + (raw[next..] + tail) by {
      var rest := raw[o..];
      ShiftedParts(c, rest, tail, len);
      assert rest[1..1 + len] == name;
      assert rest[len + 1..] == raw[next..];
    }
    assert c + name + [NUL] + (raw[next..] + tail) == Canonical(names') + raw[next..] + tail;
  }

  /** `Shifted` on a buffer made of a converted part, the rest of the run and a tail. */
  lemma {:induction false} ShiftedParts(done: seq<byte>, rest: seq<byte>, tail: seq<byte>, len: nat)
    requires len < |rest|
    ensures Shifted(done + rest + tail, |done|, len)
         == done + rest[1..1 + len] + [NUL] + (rest[len + 1..] + tail)
  {
    var b := done + rest + tail;
    var o := |done|;
    assert b[..o] == done;
    assert b[o + 1..o + 1 + len] == rest[1..1 + len];
    assert b[o + len + 1..] == rest[len + 1..] + tail;
  }

  /** One iteration's writes: `memmove` of the name over its length byte, then the NUL. */
  method PlaceName(buf: array<byte>, at: nat, len: nat)
    requires at + len < buf.Length
    modifies buf
    ensures buf[..] == Shifted(old(buf[..]), at, len)
  {
    ShiftLeft(buf, at, len);
    ghost var shifted := buf[..];
    buf[at + len] := NUL;
    assert buf[..] == shifted[at + len := NUL];
  }

  /** `convert_bsd_list(namebuf, size)`: rewrites the first `size` bytes of `namebuf`,
      a run of length-prefixed records, into the canonical NUL-terminated run of the
      same names and the same length; nothing past `size` changes. The length byte is
      read as unsigned (see `SignedLength` for the code as written). */
  method ConvertBsdList(namebuf: array<byte>, size: nat)
    requires size <= namebuf.Length
    requires Tiles(namebuf[..size])
    modifies namebuf
    ensures namebuf[..size] == Convert(old(namebuf[..size]))
    ensures namebuf[size..] == old(namebuf[size..])
  {
    ghost var raw := namebuf[..size];
    ghost var tail := namebuf[size..];
    assert namebuf[..] == raw + tail;
    ConvertingStart(raw, tail);
    ghost var names: seq<seq<byte>> := [];
    var offset := 0;
    while offset < size
      invariant Converting(raw, tail, offset, names, namebuf[..])
    {
      ghost var before := namebuf[..];
      LoopRead(raw, tail, offset, names, before);
      var length: nat := namebuf[offset];
      var next := offset + length + 1;
      ghost var names' := names + [raw[offset + 1..next]];
      LoopStep(raw, tail, offset, names, before, length, next, names');
      PlaceName(namebuf, offset, length);
      names := names';
      offset := next;
    }
    ConvertingEnd(raw, tail, names, namebuf[..]);
  }

  /** The record length as the code reads it at isdk_xattr.c:61: `(int)` of a
      signed `char`, so that lengths of 128 and more come out negative. */
  function SignedLength(b: byte): (n: int)
    ensures -128 <= n < 128
    ensures b < 128 ==> n == b
    ensures b >= 128 ==> n == b - 256 && n < 0
  {
    if b < 128 then b else b - 256
  }

  /** A FreeBSD attribute name may be up to 255 bytes long. For a single record
      naming 200 bytes, the code as written reads the length as -56: the copy count
      handed to `memmove` is `(size_t)-56`, and the NUL goes to
      `namebuf[offset + length]`, 56 bytes before the buffer (the index is negative
      in the signed reading). `offset` is a `size_t`, so `offset += length + 1`
      wraps to 2^64 - 55 and the loop ends. The unsigned reading instead converts
      the record into its name and a NUL. */
  lemma LongNameMisread()
    ensures var name := seq(200, _ => 97 as byte);
            var raw := [200 as byte] + name;
            && Tiles(raw)
            && SignedLength(raw[0]) == -56
            && 0 + SignedLength(raw[0]) < 0
            && 0 + SignedLength(raw[0]) + 1 < 0
            && Convert(raw) == name + [NUL]
  {
    var name := seq(200, _ => 97 as byte);
    var raw := [200 as byte] + name;
    assert raw[0] == 200;
    assert raw[201..] == [];
    assert Tiles(raw);
    assert raw[1..201] == name;
    assert Records(raw) == [name] + Records([]);
    assert Canonical([name]) == name + [NUL] + Canonical([]);
  }
}
