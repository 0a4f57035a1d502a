/** The FreeBSD and Linux backends of the portable attribute layer
    (isdk_xattr.c:43-262 and 453-567), and the existence probe (580-584).

    Every wrapper first validates its options and byte offset; it then either
    returns -1 without any native call or calls exactly one native function:
    the path form that follows symbolic links, the one that does not, or the
    descriptor form. Native calls are outside the model: their results are
    parameters. */
module Backend {
  import opened Names
  import opened Options
  import opened BsdList

  datatype Platform = FreeBSD | Linux

  /** The native function a wrapper selects: the path form that follows a
      symbolic link (`getxattr`, `extattr_get_file`), the one that does not
      (`lgetxattr`, `extattr_get_link`) or the descriptor form. */
  datatype Variant = File | Link | Fd

  /** A wrapper's choice: return -1 before any native call, or make one
      native call with the given native flag word. */
  datatype Decision = Reject | Call(variant: Variant, nativeFlags: OptionWord)

  /** Linux's own creation-mode flags, from `<sys/xattr.h>`. */
  const LINUX_XATTR_CREATE: OptionWord := 0x1
  const LINUX_XATTR_REPLACE: OptionWord := 0x2

  /** The native function the option set asks for. */
  function VariantFor(addr: Addressing, options: OptionWord): Variant {
    if addr == ByFd then Fd else if Has(options, NoFollow) then Link else File
  }

  /** The native flag word: Linux's set takes its own create/replace flags;
      FreeBSD's `extattr_*` calls and every other call take none. */
  function NativeFlagsFor(platform: Platform, op: Op, options: OptionWord): OptionWord {
    if platform == Linux && op == Set then
      if Has(options, Create) then LINUX_XATTR_CREATE
      else if Has(options, Replace) then LINUX_XATTR_REPLACE
      else 0
    else 0
  }

  /** What the option table asks of a backend: refuse what `Legal` refuses,
      otherwise call the variant the addressing and no-follow flag select. */
  function Expected(platform: Platform, op: Op, addr: Addressing, position: nat, options: OptionWord): Decision {
    if Legal(op, addr, position, options)
    then Call(VariantFor(addr, options), NativeFlagsFor(platform, op, options))
    else Reject
  }

  // ---------------------------------------------------------------- FreeBSD

  /** FreeBSD `xattr_getxattr`. */
  function FreeBsdGet(position: nat, options: OptionWord): (d: Decision)
    ensures d == Expected(FreeBSD, Get, ByPath, position, options)
  {
    LegalOneFlag(Get, ByPath, position, options);
    if position != 0 || !(options == 0 || options == XATTR_NOFOLLOW) then Reject
    else if options & XATTR_NOFOLLOW != 0 then Call(Link, 0)
    else Call(File, 0)
  }

  /** FreeBSD `xattr_setxattr`: create and replace are accepted and dropped,
      since `extattr_set_*` has no creation mode. */
  function FreeBsdSet(position: nat, options: OptionWord): (d: Decision)
    ensures d == Expected(FreeBSD, Set, ByPath, position, options)
    ensures d.Call? ==> d.nativeFlags == 0
  {
    LegalSetWords(ByPath, position, options);
    if position != 0 then Reject
    else
      var nofollow := options & XATTR_NOFOLLOW;
      var rest := options & !XATTR_NOFOLLOW;
      if !(rest == XATTR_CREATE || rest == XATTR_REPLACE) && rest != 0 then Reject
      else if nofollow != 0 then Call(Link, 0)
      else Call(File, 0)
  }

  /** FreeBSD `xattr_removexattr`. */
  function FreeBsdRemove(options: OptionWord): (d: Decision)
    ensures d == Expected(FreeBSD, Remove, ByPath, 0, options)
  {
    LegalOneFlag(Remove, ByPath, 0, options);
    if !(options == 0 || options == XATTR_NOFOLLOW) then Reject
    else if options & XATTR_NOFOLLOW != 0 then Call(Link, 0)
    else Call(File, 0)
  }

  /** FreeBSD `xattr_listxattr`, the choice of native call. */
  function FreeBsdList(options: OptionWord): (d: Decision)
    ensures d == Expected(FreeBSD, List, ByPath, 0, options)
  {
    LegalOneFlag(List, ByPath, 0, options);
    if !(options == 0 || options == XATTR_NOFOLLOW) then Reject
    else if options & XATTR_NOFOLLOW != 0 then Call(Link, 0)
    else Call(File, 0)
  }

  /** FreeBSD `xattr_fgetxattr`: no-follow on a descriptor is refused. */
  function FreeBsdFGet(position: nat, options: OptionWord): (d: Decision)
    ensures d == Expected(FreeBSD, Get, ByFd, position, options)
  {
    LegalOneFlag(Get, ByFd, position, options);
    if position != 0 || !(options == 0 || options == XATTR_NOFOLLOW) then Reject
    else if options & XATTR_NOFOLLOW != 0 then Reject
    else Call(Fd, 0)
  }

  /** FreeBSD `xattr_fsetxattr`. */
  function FreeBsdFSet(position: nat, options: OptionWord): (d: Decision)
    ensures d == Expected(FreeBSD, Set, ByFd, position, options)
  {
    LegalSetWords(ByFd, position, options);
    if position != 0 then Reject
    else
      var nofollow := options & XATTR_NOFOLLOW;
      var rest := options & !XATTR_NOFOLLOW;
      if !(rest == XATTR_CREATE || rest == XATTR_REPLACE) && rest != 0 then Reject
      else if nofollow != 0 then Reject
      else Call(Fd, 0)
  }

  /** FreeBSD `xattr_fremovexattr`. */
  function FreeBsdFRemove(options: OptionWord): (d: Decision)
    ensures d == Expected(FreeBSD, Remove, ByFd, 0, options)
  {
    LegalOneFlag(Remove, ByFd, 0, options);
    if !(options == 0 || options == XATTR_NOFOLLOW) then Reject
    else if options & XATTR_NOFOLLOW != 0 then Reject
    else Call(Fd, 0)
  }

  /** FreeBSD `xattr_flistxattr`, the choice of native call. */
  function FreeBsdFList(options: OptionWord): (d: Decision)
    ensures d == Expected(FreeBSD, List, ByFd, 0, options)
  {
    LegalOneFlag(List, ByFd, 0, options);
    if !(options == 0 || options == XATTR_NOFOLLOW) then Reject
    else if options & XATTR_NOFOLLOW != 0 then Reject
    else Call(Fd, 0)
  }

  // ------------------------------------------------------------------ Linux

  /** Linux `xattr_getxattr`. */
  function LinuxGet(position: nat, options: OptionWord): (d: Decision)
    ensures d == Expected(Linux, Get, ByPath, position, options)
  {
    LegalOneFlag(Get, ByPath, position, options);
    if position != 0 || !(options == 0 || options == XATTR_NOFOLLOW) then Reject
    else if options & XATTR_NOFOLLOW != 0 then Call(Link, 0)
    else Call(File, 0)
  }

  /** Linux `xattr_setxattr`: create and replace become Linux's own flags. */
  function LinuxSet(position: nat, options: OptionWord): (d: Decision)
    ensures d == Expected(Linux, Set, ByPath, position, options)
  {
    LegalSetWords(ByPath, position, options);
    if position != 0 then Reject
    else
      var nofollow := options & XATTR_NOFOLLOW;
      var rest := options & !XATTR_NOFOLLOW;
      if rest == XATTR_CREATE then
        if nofollow != 0 then Call(Link, LINUX_XATTR_CREATE) else Call(File, LINUX_XATTR_CREATE)
      else if rest == XATTR_REPLACE then
        if nofollow != 0 then Call(Link, LINUX_XATTR_REPLACE) else Call(File, LINUX_XATTR_REPLACE)
      else if rest != 0 then Reject
      else if nofollow != 0 then Call(Link, 0)
      else Call(File, 0)
  }

  /** Linux `xattr_removexattr`. */
  function LinuxRemove(options: OptionWord): (d: Decision)
    ensures d == Expected(Linux, Remove, ByPath, 0, options)
  {
    LegalOneFlag(Remove, ByPath, 0, options);
    if !(options == 0 || options == XATTR_NOFOLLOW) then Reject
    else if options & XATTR_NOFOLLOW != 0 then Call(Link, 0)
    else Call(File, 0)
  }

  /** Linux `xattr_listxattr`. */
  function LinuxList(options: OptionWord): (d: Decision)
    ensures d == Expected(Linux, List, ByPath, 0, options)
  {
    LegalOneFlag(List, ByPath, 0, options);
    if !(options == 0 || options == XATTR_NOFOLLOW) then Reject
    else if options & XATTR_NOFOLLOW != 0 then Call(Link, 0)
    else Call(File, 0)
  }

  /** Linux `xattr_fgetxattr`. */
  function LinuxFGet(position: nat, options: OptionWord): (d: Decision)
    ensures d == Expected(Linux, Get, ByFd, position, options)
  {
    LegalOneFlag(Get, ByFd, position, options);
    if position != 0 || !(options == 0 || options == XATTR_NOFOLLOW) then Reject
    else if options & XATTR_NOFOLLOW != 0 then Reject
    else Call(Fd, 0)
  }

  /** Linux `xattr_fsetxattr` as written: the no-follow test is made on the
      option word after no-follow was cleared and create/replace were
      translated, so no-follow on a descriptor is never refused, and create
      (translated to Linux's 0x1, the no-follow bit) always is. */
  function LinuxFSet(position: nat, options: OptionWord): (d: Decision)
    ensures d == if Legal(Set, ByPath, position, options) && !Has(options, Create)
                 then Call(Fd, NativeFlagsFor(Linux, Set, options))
                 else Reject
  {
    LegalSetWords(ByPath, position, options);
    if position != 0 then Reject
    else
      var rest := options & !XATTR_NOFOLLOW;
      var native :=
        if rest == XATTR_CREATE then LINUX_XATTR_CREATE
        else if rest == XATTR_REPLACE then LINUX_XATTR_REPLACE
        else rest;
      if !(rest == XATTR_CREATE || rest == XATTR_REPLACE) && rest != 0 then Reject
      else if native & XATTR_NOFOLLOW != 0 then Reject
      else Call(Fd, native)
  }

  /** Linux `xattr_fsetxattr` with the test made on the saved no-follow bit,
      as the FreeBSD descriptor wrapper does it. */
  function LinuxFSetIntended(position: nat, options: OptionWord): (d: Decision)
    ensures d == Expected(Linux, Set, ByFd, position, options)
  {
    LegalSetWords(ByFd, position, options);
    if position != 0 then Reject
    else
      var nofollow := options & XATTR_NOFOLLOW;
      var rest := options & !XATTR_NOFOLLOW;
      var native :=
        if rest == XATTR_CREATE then LINUX_XATTR_CREATE
        else if rest == XATTR_REPLACE then LINUX_XATTR_REPLACE
        else rest;
      if !(rest == XATTR_CREATE || rest == XATTR_REPLACE) && rest != 0 then Reject
      else if nofollow != 0 then Reject
      else Call(Fd, native)
  }

  /** The two inputs on which Linux `xattr_fsetxattr` as written departs from
      the table: no-follow on a descriptor reaches `fsetxattr`, and a legal
      create-only set is refused without a native call. */
  lemma LinuxFSetFinding()
    ensures LinuxFSet(0, XATTR_NOFOLLOW) == Call(Fd, 0)
    ensures Expected(Linux, Set, ByFd, 0, XATTR_NOFOLLOW) == Reject
    ensures LinuxFSet(0, XATTR_CREATE) == Reject
    ensures Expected(Linux, Set, ByFd, 0, XATTR_CREATE) == Call(Fd, LINUX_XATTR_CREATE)
    ensures LinuxFSetIntended(0, XATTR_CREATE) == Call(Fd, LINUX_XATTR_CREATE)
  {
  }

  // ----------------------------------------------------------------- facade

  /** The wrapper a call reaches on each platform. */
  function Decide(platform: Platform, op: Op, addr: Addressing, position: nat, options: OptionWord): (d: Decision)
    ensures !(platform == Linux && op == Set && addr == ByFd) ==> d == Expected(platform, op, addr, position, options)
    ensures platform == Linux && op == Set && addr == ByFd ==> d == LinuxFSet(position, options)
  {
    match (platform, op, addr)
    case (FreeBSD, Get, ByPath) => FreeBsdGet(position, options)
    case (FreeBSD, Set, ByPath) => FreeBsdSet(position, options)
    case (FreeBSD, Remove, ByPath) => FreeBsdRemove(options)
    case (FreeBSD, List, ByPath) => FreeBsdList(options)
    case (FreeBSD, Get, ByFd) => FreeBsdFGet(position, options)
    case (FreeBSD, Set, ByFd) => FreeBsdFSet(position, options)
    case (FreeBSD, Remove, ByFd) => FreeBsdFRemove(options)
    case (FreeBSD, List, ByFd) => FreeBsdFList(options)
    case (Linux, Get, ByPath) => LinuxGet(position, options)
    case (Linux, Set, ByPath) => LinuxSet(position, options)
    case (Linux, Remove, ByPath) => LinuxRemove(options)
    case (Linux, List, ByPath) => LinuxList(options)
    case (Linux, Get, ByFd) => LinuxFGet(position, options)
    case (Linux, Set, ByFd) => LinuxFSet(position, options)
    case (Linux, Remove, ByFd) => LinuxFRemove(options)
    case (Linux, List, ByFd) => LinuxFList(options)
  }

  /** Linux `xattr_fremovexattr`. */
  function LinuxFRemove(options: OptionWord): (d: Decision)
    ensures d == Expected(Linux, Remove, ByFd, 0, options)
  {
    LegalOneFlag(Remove, ByFd, 0, options);
    if !(options == 0 || options == XATTR_NOFOLLOW) then Reject
    else if options & XATTR_NOFOLLOW != 0 then Reject
    else Call(Fd, 0)
  }

  /** Linux `xattr_flistxattr`. */
  function LinuxFList(options: OptionWord): (d: Decision)
    ensures d == Expected(Linux, List, ByFd, 0, options)
  {
    LegalOneFlag(List, ByFd, 0, options);
    if !(options == 0 || options == XATTR_NOFOLLOW) then Reject
    else if options & XATTR_NOFOLLOW != 0 then Reject
    else Call(Fd, 0)
  }

  /** A wrapper's return value, given what the native call returned (consulted
      only when one is made). FreeBSD's set reports the number of bytes written
      on success, which the wrapper turns into 0; everything else is passed on. */
  function Complete(platform: Platform, op: Op, d: Decision, native: int): (r: int)
    ensures d.Reject? ==> r == -1
    ensures d.Call? ==> (r >= 0 <==> native >= 0) && (native < 0 ==> r == native)
    ensures d.Call? && platform == FreeBSD && op == Set ==> r <= 0
    ensures d.Call? && !(platform == FreeBSD && op == Set) ==> r == native
  {
    match d
    case Reject => -1
    case Call(_, _) =>
      if platform == FreeBSD && op == Set then (if native >= 0 then 0 else native)
      else native
  }

  /** One call of a FreeBSD or Linux `xattr_*` wrapper. Every wrapper but Linux
      `xattr_fsetxattr` follows the table; that one calls `fsetxattr` whenever a
      set by path would be legal and create is absent, no-follow included. */
  function Invoke(platform: Platform, op: Op, addr: Addressing, position: nat, options: OptionWord, native: int): (r: int)
    ensures !Legal(op, addr, position, options) && !(platform == Linux && op == Set && addr == ByFd) ==> r == -1
    ensures Legal(op, addr, position, options) && !(platform == Linux && op == Set && addr == ByFd)
            ==> (r >= 0 <==> native >= 0)
    ensures platform == Linux && op == Set && addr == ByFd
            ==> r == (if Legal(Set, ByPath, position, options) && !Has(options, Create) then native else -1)
  {
    Complete(platform, op, Decide(platform, op, addr, position, options), native)
  }

  /** Set succeeds with 0 on both platforms: when the native call keeps its
      platform's convention (Linux: 0 or -1; FreeBSD: a byte count or -1),
      an accepted set returns 0 on success and -1 on failure. */
  lemma {:induction false} SetResultUniform(platform: Platform, options: OptionWord, native: int)
    requires Legal(Set, ByPath, 0, options)
    requires platform == Linux ==> native == 0 || native == -1
    requires platform == FreeBSD ==> native >= 0 || native == -1
    ensures Invoke(platform, Set, ByPath, 0, options, native) == (if native >= 0 then 0 else -1)
  {
  }

  /** `IsXattrExists`: probe with no buffer, capacity 0, offset 0 and no options.
      That probe always passes validation, so the answer is the native one. */
  function IsXattrExists(platform: Platform, native: int): (present: bool)
    ensures present <==> native >= 0
  {
    Invoke(platform, Get, ByPath, 0, 0, native) >= 0
  }

  /** FreeBSD `xattr_listxattr` / `xattr_flistxattr`: after the native call
      has filled `namebuf` with length-prefixed records and returned `native`,
      a positive count with a real buffer is converted in place; the count is
      returned unchanged. */
  method FreeBsdListXattr(addr: Addressing, options: OptionWord, namebuf: array?<byte>, native: int)
    returns (r: int)
    requires Legal(List, addr, 0, options) && namebuf != null && native > 0
             ==> native <= namebuf.Length && Tiles(namebuf[..native])
    modifies namebuf
    ensures r == Invoke(FreeBSD, List, addr, 0, options, native)
    ensures r == (if Legal(List, addr, 0, options) then native else -1)
    ensures namebuf != null && r > 0
            ==> namebuf[..r] == Convert(old(namebuf[..r])) && namebuf[r..] == old(namebuf[r..])
    ensures namebuf != null && r <= 0 ==> namebuf[..] == old(namebuf[..])
  {
    var d := if addr == ByPath then FreeBsdList(options) else FreeBsdFList(options);
    if d.Reject? {
      return -1;
    }
    r := native;
    if r > 0 && namebuf != null {
      ConvertBsdList(namebuf, r);
    }
  }
}
