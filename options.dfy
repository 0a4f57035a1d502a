/** The option vocabulary shared by every backend and the table of which
    options each operation accepts (isdk_xattr.h:37-54).

    Options travel as a C `int` bit mask. Every mask the code applies lies in
    the low five bits, and any bit above them is refused wherever it appears,
    so the model keeps the option word eight bits wide: bits 5-7 stand for
    every bit above the named flags. */
module Options {

  /** An option word. */
  type OptionWord = bv8

  /** The option flags and the root-namespace selector layered on top of them. */
  datatype Flag = NoFollow | Create | Replace | NoSecurity | Root

  const XATTR_NOFOLLOW: OptionWord := 0x0001
  const XATTR_CREATE: OptionWord := 0x0002
  const XATTR_REPLACE: OptionWord := 0x0004
  const XATTR_NOSECURITY: OptionWord := 0x0008
  const ATTR_ROOT: OptionWord := 0x0010

  /** The bit of each flag. */
  function Bit(f: Flag): OptionWord {
    match f
    case NoFollow => XATTR_NOFOLLOW
    case Create => XATTR_CREATE
    case Replace => XATTR_REPLACE
    case NoSecurity => XATTR_NOSECURITY
    case Root => ATTR_ROOT
  }

  /** `options` has flag `f` set. */
  predicate Has(options: OptionWord, f: Flag) {
    options & Bit(f) != 0
  }

  /** The bits of a set of flags. */
  function MaskOf(fs: set<Flag>): OptionWord {
    (if NoFollow in fs then XATTR_NOFOLLOW else 0)
    | (if Create in fs then XATTR_CREATE else 0)
    | (if Replace in fs then XATTR_REPLACE else 0)
    | (if NoSecurity in fs then XATTR_NOSECURITY else 0)
    | (if Root in fs then ATTR_ROOT else 0)
  }

  /** Every bit set in `options` belongs to one of the flags in `fs`. */
  predicate Within(options: OptionWord, fs: set<Flag>) {
    options & !MaskOf(fs) == 0
  }

  /** The four operations, each with a path form and a descriptor form. */
  datatype Op = Get | Set | Remove | List

  /** How the target is named: a path (symbolic links matter) or an open descriptor. */
  datatype Addressing = ByPath | ByFd

  /** Whether a backend accepts a call before making any native call:
      get and set need byte offset 0; set accepts no-follow together with at most
      one of create and replace; the other operations accept no-follow alone;
      a descriptor has no symbolic link, so no-follow on a descriptor is refused.
      Any other bit (no-security, the root selector, unknown bits) is refused. */
  predicate Legal(op: Op, addr: Addressing, position: nat, options: OptionWord) {
    && (op == Get || op == Set ==> position == 0)
    && (if op == Set
        then options & !(XATTR_NOFOLLOW | XATTR_CREATE | XATTR_REPLACE) == 0
             && !(Has(options, Create) && Has(options, Replace))
        else options & !XATTR_NOFOLLOW == 0)
    && (addr == ByFd ==> !Has(options, NoFollow))
  }

  /** The table in the terms the wrappers test, for get, remove and list:
      they accept exactly the option words 0 and no-follow, and a descriptor
      refuses no-follow. */
  lemma {:induction false} LegalOneFlag(op: Op, addr: Addressing, position: nat, options: OptionWord)
    requires op != Set
    ensures Legal(op, addr, position, options)
            <==> (op == Get ==> position == 0)
                 && (options == 0 || (options == XATTR_NOFOLLOW && addr == ByPath))
  {
    NoFollowWords(options);
  }

  /** The same for set: no-follow plus nothing, create or replace, and no
      no-follow on a descriptor. */
  lemma {:induction false} LegalSetWords(addr: Addressing, position: nat, options: OptionWord)
    ensures Legal(Set, addr, position, options)
            <==> position == 0
                 && (options & !XATTR_NOFOLLOW == 0
                     || options & !XATTR_NOFOLLOW == XATTR_CREATE
                     || options & !XATTR_NOFOLLOW == XATTR_REPLACE)
                 && (addr == ByFd ==> options & XATTR_NOFOLLOW == 0)
  {
    SetWords(options);
    CreateReplaceBits(options);
  }

  /** No operation accepts the root selector or no-security. */
  lemma {:induction false} RootRefused(op: Op, addr: Addressing, position: nat, options: OptionWord)
    ensures Has(options, Root) || Has(options, NoSecurity) ==> !Legal(op, addr, position, options)
  {
    if Has(options, Root) || Has(options, NoSecurity) {
      assert options & 0x10 != 0 || options & 0x8 != 0;
      HighBits(options);
      assert XATTR_NOFOLLOW | XATTR_CREATE | XATTR_REPLACE == 0x7;
    }
  }

  /** The words with no bit but no-follow are 0 and no-follow itself. */
  lemma NoFollowWords(options: OptionWord)
    ensures options & !0x1 == 0 ==> options == 0 || options == 0x1
    ensures options == 0 || options == 0x1 ==> options & !0x1 == 0
  {
  }

  /** Create and replace, at most one of them, besides no-follow. */
  lemma SetWords(options: OptionWord)
    ensures options & !0x7 == 0 && !(options & 0x2 != 0 && options & 0x4 != 0)
            ==> options & !0x1 == 0 || options & !0x1 == 0x2 || options & !0x1 == 0x4
    ensures options & !0x1 == 0 || options & !0x1 == 0x2 || options & !0x1 == 0x4
            ==> options & !0x7 == 0 && !(options & 0x2 != 0 && options & 0x4 != 0)
  {
  }

  /** Which of create and replace a set word holds. */
  lemma CreateReplaceBits(options: OptionWord)
    ensures options & !0x1 == 0 ==> options & 0x2 == 0 && options & 0x4 == 0
    ensures options & !0x1 == 0x2 ==> options & 0x2 != 0 && options & 0x4 == 0
    ensures options & !0x1 == 0x4 ==> options & 0x2 == 0 && options & 0x4 != 0
  {
  }

  /** The root selector and no-security lie outside both accepted masks. */
  lemma HighBits(options: OptionWord)
    ensures options & 0x10 != 0 || options & 0x8 != 0 ==> options & !0x7 != 0 && options & !0x1 != 0
  {
  }
}
