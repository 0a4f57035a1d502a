/** The data logic of the PHP functions in xattr.c: flag masking, the
    probe-then-fetch of `xattr_get`, the answer of `xattr_supported` and the
    split of a name listing into array elements in `xattr_list`.

    Each PHP function calls the path form of a backend wrapper (Backend.Invoke);
    the native results behind those calls and `errno` are parameters. */
module Binding {
  import opened Names
  import opened Options
  import opened BsdList
  import opened Backend

  /** The PHP values these functions return. */
  datatype PhpValue =
    | PhpNull
    | PhpFalse
    | PhpTrue
    | PhpString(bytes: seq<byte>)
    | PhpArray(items: seq<seq<byte>>)

  /** `errno` after a failed call, as far as the functions look at it. */
  datatype Errno = NoErrno | NotSupported | OtherErrno

  /** The flags `xattr_set` passes on. */
  const SET_FLAGS: set<Flag> := {Root, NoFollow, Create, Replace}

  /** The flags `xattr_get` and `xattr_remove` pass on. */
  const GET_FLAGS: set<Flag> := {Root, NoFollow}

  /** `flags &= ATTR_ROOT | XATTR_NOFOLLOW | XATTR_CREATE | XATTR_REPLACE`. */
  function MaskSetFlags(flags: OptionWord): (m: OptionWord)
    ensures Within(m, SET_FLAGS)
    ensures forall f :: f in SET_FLAGS ==> (Has(m, f) <==> Has(flags, f))
  {
    flags & (ATTR_ROOT | XATTR_NOFOLLOW | XATTR_CREATE | XATTR_REPLACE)
  }

  /** `flags &= ATTR_ROOT | XATTR_NOFOLLOW`. */
  function MaskGetFlags(flags: OptionWord): (m: OptionWord)
    ensures Within(m, GET_FLAGS)
    ensures forall f :: f in GET_FLAGS ==> (Has(m, f) <==> Has(flags, f))
  {
    flags & (ATTR_ROOT | XATTR_NOFOLLOW)
  }

  /** PHP `xattr_set`: `native` is the result of the backend's native call.
      False exactly when the backend returns -1; `errno` only selects a
      warning. The root selector survives the mask and the backend refuses it. */
  function XattrSet(platform: Platform, flags: OptionWord, native: int): (r: PhpValue)
    ensures r == PhpTrue || r == PhpFalse
    ensures r == PhpFalse <==> !Legal(Set, ByPath, 0, MaskSetFlags(flags)) || native == -1
    ensures Has(flags, Root) ==> r == PhpFalse
  {
    var masked := MaskSetFlags(flags);
    if Invoke(platform, Set, ByPath, 0, masked, native) == -1 then PhpFalse else PhpTrue
  }

  /** PHP `xattr_remove`. */
  function XattrRemove(platform: Platform, flags: OptionWord, native: int): (r: PhpValue)
    ensures r == PhpTrue || r == PhpFalse
    ensures r == PhpFalse <==> !Legal(Remove, ByPath, 0, MaskGetFlags(flags)) || native == -1
    ensures Has(flags, Root) ==> r == PhpFalse
  {
    var masked := MaskGetFlags(flags);
    if Invoke(platform, Remove, ByPath, 0, masked, native) == -1 then PhpFalse else PhpTrue
  }

  /** PHP `xattr_get`. The first backend call probes the size with no buffer;
      a buffer of exactly that size is allocated (its old contents are
      `stale`) and the second call writes `fetched` at its start. The fetch
      may report more than the probe did (with a zero-size buffer, Linux
      reports the attribute's current size and writes nothing), so only a
      count within the buffer is the number of bytes written. The string
      returned has the probed length, not the fetched one. */
  function XattrGet(platform: Platform, flags: OptionWord, probeNative: int, fetchNative: int,
                    fetched: seq<byte>, stale: seq<byte>): (r: PhpValue)
    requires probeNative >= 0 ==> |stale| == probeNative
    requires probeNative >= 0 && fetchNative >= 0
             ==> |fetched| <= probeNative && (fetchNative <= probeNative ==> |fetched| == fetchNative)
    ensures r.PhpString? || r == PhpFalse
    ensures r.PhpString? <==> Legal(Get, ByPath, 0, MaskGetFlags(flags)) && probeNative >= 0 && fetchNative >= 0
    ensures r.PhpString? ==> |r.bytes| == probeNative && r.bytes[..|fetched|] == fetched
    ensures r.PhpString? && fetchNative <= probeNative ==> r.bytes[..fetchNative] == fetched
    ensures r.PhpString? && fetchNative == probeNative ==> r.bytes == fetched
    ensures Has(flags, Root) ==> r == PhpFalse
  {
    var masked := MaskGetFlags(flags);
    var size := Invoke(platform, Get, ByPath, 0, masked, probeNative);
    if size >= 0 then
      var error := Invoke(platform, Get, ByPath, 0, masked, fetchNative);
      if error >= 0 then PhpString(fetched + stale[|fetched|..]) else PhpFalse
    else PhpFalse
  }

  /** PHP `xattr_supported`: probes "user.test" with the caller's flags
      unmasked. True when the probe succeeds, false when it fails with
      "not supported", null on any other failure. */
  function XattrSupported(platform: Platform, flags: OptionWord, native: int, errno: Errno): (r: PhpValue)
    ensures r == PhpTrue <==> Legal(Get, ByPath, 0, flags) && native >= 0
    ensures r == PhpFalse <==> !(Legal(Get, ByPath, 0, flags) && native >= 0) && errno == NotSupported
    ensures r == PhpTrue || r == PhpFalse || r == PhpNull
  {
    if Invoke(platform, Get, ByPath, 0, flags, native) >= 0 then PhpTrue
    else if errno == NotSupported then PhpFalse
    else PhpNull
  }

  /** The split loop of `xattr_list`: each name of a NUL-terminated run
      becomes one element, kept with its NUL. */
  method SplitNames(buffer: seq<byte>) returns (items: seq<seq<byte>>)
    requires NulEnded(buffer)
    ensures items == Split(buffer)
    ensures Concat(items) == buffer
    ensures forall k :: 0 <= k < |items| ==> IsTerminatedName(items[k])
  {
    items := [];
    var i := 0;
    while i != |buffer|
      invariant 0 <= i <= |buffer|
      invariant NulEnded(buffer[i..])
      invariant items + Split(buffer[i..]) == Split(buffer)
      decreases |buffer| - i
    {
      assert NUL in buffer[i..] by {
        assert buffer[i..][|buffer| - i - 1] == NUL;
      }
      var len := StrLen(buffer[i..]) + 1;
      var next := i + len;
      assert next <= |buffer| && NulEnded(buffer[next..]) by {
        SplitStep(buffer, i, len, next);
      }
      var name := buffer[i..next];
      ghost var later := Split(buffer[next..]);
      assert Split(buffer[i..]) == [name] + later by {
        SplitStep(buffer, i, len, next);
      }
      assert items + ([name] + later) == Split(buffer);
      AppendAssoc(items, [name], later);
      items := items + [name];
      i := next;
    }
    assert buffer[i..] == [];
    SplitConcat(buffer);
    SplitElements(buffer);
  }

  /** One turn of the split loop: the name at `i` runs to its NUL, and the
      rest of the buffer after it is again a NUL-ended run. */
  lemma {:induction false} SplitStep(buffer: seq<byte>, i: nat, len: nat, next: nat)
    requires i < |buffer| && NulEnded(buffer[i..])
    requires NUL in buffer[i..] && len == StrLen(buffer[i..]) + 1 && next == i + len
    ensures next <= |buffer| && NulEnded(buffer[next..])
    ensures Split(buffer[i..]) == [buffer[i..next]] + Split(buffer[next..])
  {
    var p := buffer[i..];
    assert NulEnded(p[len..]) by {
      if len < |p| {
        assert p[len..][|p| - len - 1] == p[|p| - 1];
      }
    }
    assert p[len..] == buffer[next..];
    assert p[..len] == buffer[i..next];
  }

  /** PHP `xattr_list`, flags unmasked. The probe result and `errno` come
      first; the buffer of the probed size then holds what the second call
      left in it. A failed probe gives false when `errno` is set and null
      otherwise; a failed second call gives null. */
  method XattrList(platform: Platform, flags: OptionWord, probeNative: int, errno: Errno,
                   fetchNative: int, buffer: seq<byte>) returns (r: PhpValue)
    requires Legal(List, ByPath, 0, flags) && probeNative >= 0 && fetchNative >= 0
             ==> |buffer| == probeNative && NulEnded(buffer)
    ensures r.PhpArray? <==> Legal(List, ByPath, 0, flags) && probeNative >= 0 && fetchNative >= 0
    ensures r.PhpArray? ==> r.items == Split(buffer) && Concat(r.items) == buffer
    ensures r == PhpFalse <==> !(Legal(List, ByPath, 0, flags) && probeNative >= 0) && errno != NoErrno
    ensures r.PhpArray? || r == PhpFalse || r == PhpNull
  {
    var size := Invoke(platform, List, ByPath, 0, flags, probeNative);
    if size >= 0 {
      var error := Invoke(platform, List, ByPath, 0, flags, fetchNative);
      if error >= 0 {
        var items := SplitNames(buffer);
        return PhpArray(items);
      }
      return PhpNull;
    } else if errno != NoErrno {
      return PhpFalse;
    }
    return PhpNull;
  }

  /** On FreeBSD the listing `xattr_list` splits is the converted record run:
      splitting it gives back every record's name, each with its NUL. */
  lemma {:induction false} ListRoundTrip(raw: seq<byte>)
    requires Tiles(raw) && AllNulFree(Records(raw))
    ensures NulEnded(Convert(raw))
    ensures Split(Convert(raw)) == Terminated(Records(raw))
  {
    SplitCanonical(Records(raw));
  }
}
