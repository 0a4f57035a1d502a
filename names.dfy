/** Byte buffers and the canonical attribute-name listing: a run of names,
    each followed by exactly one NUL byte, with nothing in between. */
module Names {

  /** One byte of a C `char` buffer, read as unsigned. */
  type byte = b: int | 0 <= b < 256

  const NUL: byte := 0

  /** The contents of a C string: no NUL byte inside. */
  predicate NulFree(s: seq<byte>) {
    forall i :: 0 <= i < |s| ==> s[i] != NUL
  }

  predicate AllNulFree(names: seq<seq<byte>>) {
    forall k :: 0 <= k < |names| ==> NulFree(names[k])
  }

  /** A buffer whose last byte (if any) is a NUL, so that `strlen` never runs past it. */
  predicate NulEnded(buf: seq<byte>) {
    buf == [] || buf[|buf| - 1] == NUL
  }

  /** One name together with its terminating NUL. */
  predicate IsTerminatedName(e: seq<byte>) {
    |e| > 0 && e[|e| - 1] == NUL && NulFree(e[..|e| - 1])
  }

  /** The canonical listing of `names`: each name followed by a NUL. */
  function Canonical(names: seq<seq<byte>>): seq<byte> {
    if names == [] then [] else names[0] + [NUL] + Canonical(names[1..])
  }

  /** The bytes a listing of `names` needs: each name's length plus one, summed. */
  function TotalSize(names: seq<seq<byte>>): nat {
    if names == [] then 0 else |names[0]| + 1 + TotalSize(names[1..])
  }

  /** Each name with its NUL attached, as one element per name. */
  function Terminated(names: seq<seq<byte>>): (r: seq<seq<byte>>)
    ensures |r| == |names|
    ensures forall k :: 0 <= k < |r| ==> r[k] == names[k] + [NUL]
  {
    if names == [] then [] else [names[0] + [NUL]] + Terminated(names[1..])
  }

  /** The pieces laid end to end. */
  function Concat(pieces: seq<seq<byte>>): seq<byte> {
    if pieces == [] then [] else pieces[0] + Concat(pieces[1..])
  }

  /** C `strlen`: the number of bytes before the first NUL. */
  function StrLen(s: seq<byte>): (n: nat)
    requires NUL in s
    ensures n < |s| && s[n] == NUL && NulFree(s[..n])
  {
    if s[0] == NUL then 0
    else
      assert NUL in s[1..] by {
        var i :| 0 <= i < |s| && s[i] == NUL;
        assert s[1..][i - 1] == NUL;
      }
      1 + StrLen(s[1..])
  }

  /** A NUL-terminated run cut into its names, each kept with its NUL. */
  function Split(buf: seq<byte>): seq<seq<byte>>
    requires NulEnded(buf)
    decreases |buf|
  {
    if buf == [] then []
    else
      assert buf[|buf| - 1] == NUL;
      var n := StrLen(buf);
      assert NulEnded(buf[n + 1..]) by {
        if n + 1 < |buf| { assert buf[n + 1..][|buf| - n - 2] == buf[|buf| - 1]; }
      }
      [buf[..n + 1]] + Split(buf[n + 1..])
  }

  /** Concatenation regroups freely. */
  lemma AppendAssoc<T>(a: seq<T>, b: seq<T>, c: seq<T>)
    ensures (a + b) + c == a + (b + c)
  {
  }

  lemma {:induction false} CanonicalLength(names: seq<seq<byte>>)
    ensures |Canonical(names)| == TotalSize(names)
  {
    if names != [] {
      CanonicalLength(names[1..]);
    }
  }

  lemma {:induction false} CanonicalAppend(a: seq<seq<byte>>, b: seq<seq<byte>>)
    ensures Canonical(a + b) == Canonical(a) + Canonical(b)
  {
    if a == [] {
      assert a + b == b;
    } else {
      assert (a + b)[0] == a[0];
      assert (a + b)[1..] == a[1..] + b;
      CanonicalAppend(a[1..], b);
    }
  }

  lemma {:induction false} TotalSizeAppend(a: seq<seq<byte>>, b: seq<seq<byte>>)
    ensures TotalSize(a + b) == TotalSize(a) + TotalSize(b)
  {
    if a == [] {
      assert a + b == b;
    } else {
      assert (a + b)[1..] == a[1..] + b;
      TotalSizeAppend(a[1..], b);
    }
  }

  /** Splitting loses no byte: the elements laid end to end give the buffer back. */
  lemma {:induction false} SplitConcat(buf: seq<byte>)
    requires NulEnded(buf)
    ensures Concat(Split(buf)) == buf
    decreases |buf|
  {
    if buf != [] {
      assert buf[|buf| - 1] == NUL;
      var n := StrLen(buf);
      assert NulEnded(buf[n + 1..]) by {
        if n + 1 < |buf| { assert buf[n + 1..][|buf| - n - 2] == buf[|buf| - 1]; }
      }
      var rest := Split(buf[n + 1..]);
      assert Concat(rest) == buf[n + 1..] by {
        SplitConcat(buf[n + 1..]);
      }
      assert ([buf[..n + 1]] + rest)[1..] == rest;
      assert buf == buf[..n + 1] + buf[n + 1..];
    }
  }

  /** Every element of a split is one name followed by its NUL. */
  lemma {:induction false} SplitElements(buf: seq<byte>)
    requires NulEnded(buf)
    ensures forall k :: 0 <= k < |Split(buf)| ==> IsTerminatedName(Split(buf)[k])
    decreases |buf|
  {
    if buf != [] {
      var n := StrLen(buf);
      SplitElements(buf[n + 1..]);
      assert buf[..n + 1][..n] == buf[..n];
    }
  }

  /** `strlen` finds the first NUL: a NUL with none before it is where it stops. */
  lemma {:induction false} StrLenAt(s: seq<byte>, m: nat)
    requires m < |s| && s[m] == NUL && NulFree(s[..m])
    ensures NUL in s && StrLen(s) == m
  {
    if m > 0 {
      assert s[..m][0] == s[0];
      assert s[1..][m - 1] == s[m];
      assert s[1..][..m - 1] == s[..m][1..];
      StrLenAt(s[1..], m - 1);
    }
  }

  /** A NUL-free name, its NUL and a NUL-ended rest split as the name first, then the rest. */
  lemma {:induction false} SplitHead(name: seq<byte>, rest: seq<byte>)
    requires NulFree(name) && NulEnded(rest)
    ensures NulEnded(name + [NUL] + rest)
    ensures Split(name + [NUL] + rest) == [name + [NUL]] + Split(rest)
  {
    var c := name + [NUL] + rest;
    var m := |name|;
    assert c[|c| - 1] == NUL by {
      if rest == [] { assert c[|c| - 1] == [NUL][0]; }
      else { assert c[|c| - 1] == rest[|rest| - 1]; }
    }
    assert c[m] == NUL;
    assert c[..m] == name;
    StrLenAt(c, m);
    assert c[..m + 1] == name + [NUL];
    assert c[m + 1..] == rest;
  }

  /** The canonical listing of NUL-free names splits back into exactly those names. */
  lemma {:induction false} SplitCanonical(names: seq<seq<byte>>)
    requires AllNulFree(names)
    ensures NulEnded(Canonical(names))
    ensures Split(Canonical(names)) == Terminated(names)
  {
    if names != [] {
      assert AllNulFree(names[1..]) by {
        forall k | 0 <= k < |names[1..]| ensures NulFree(names[1..][k]) {
          assert names[1..][k] == names[k + 1];
        }
      }
      SplitCanonical(names[1..]);
      assert NulFree(names[0]);
      SplitHead(names[0], Canonical(names[1..]));
    }
  }
}
