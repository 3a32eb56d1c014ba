/** `_mb_get_cmdline`: the bounded copy of the boot command line into a
    fixed-capacity buffer that is always NUL-terminated. */
module Cmdline {
  import opened Bytes
  import opened Multiboot

  /** MAX_CMDLINE_SIZE, the capacity of the static `cmdline` buffer. */
  const MaxCmdlineSize: nat := 8192

  /** The two `uk_printd` messages the extraction can emit. */
  datatype Diagnostic = CmdlineTruncated | NoCmdlineFound

  /** `strlen`: the index of the first NUL. */
  function StrLen(s: seq<Byte>): (n: nat)
    requires Nul in s
    ensures n < |s| && s[n] == Nul
    ensures forall i :: 0 <= i < n ==> s[i] != Nul
  {
    if s[0] == Nul then 0
    else
      assert s == [s[0]] + s[1..];
      var n := 1 + StrLen(s[1..]);
      assert forall i :: 1 <= i < n ==> s[i] == s[1..][i - 1];
      n
  }

  /** Any NUL with no NUL before it is the one `strlen` finds. */
  lemma StrLenIsFirstNul(s: seq<Byte>, k: nat)
    requires k < |s| && s[k] == Nul
    requires forall i :: 0 <= i < k ==> s[i] != Nul
    ensures Nul in s && StrLen(s) == k
  {
  }

  /** The string a C reader sees in the buffer: the bytes before the first NUL. */
  function CString(s: seq<Byte>): (r: seq<Byte>)
    requires Nul in s
    ensures Nul !in r && r + [Nul] <= s
  {
    s[..StrLen(s)]
  }

  /** The number of source bytes copied: `strlen`, cut to `maxlen - 1`. */
  function CopyLength(src: seq<Byte>, maxlen: nat): (n: nat)
    requires Nul in src && maxlen >= 1
    ensures n < maxlen && n <= StrLen(src)
    ensures n == StrLen(src) || (StrLen(src) >= maxlen && n == maxlen - 1)
  {
    var len := StrLen(src);
    if len >= maxlen then maxlen - 1 else len
  }

  /** What the caller demands of the boot information and of UK_NAME: the
      command line `strlen` reads ends in a NUL, and UK_NAME with its NUL
      fits the buffer (`strcpy` does not check). */
  predicate CmdlineSourceOk(mi: MultibootInfo, maxlen: nat, ukName: seq<Byte>) {
    maxlen >= 1
    && (HasCmdline(mi.flags) ==> Nul in mi.cmdline)
    && (!HasCmdline(mi.flags) ==> Nul !in ukName && |ukName| < maxlen)
  }

  /** The bytes the extraction writes from the start of the buffer,
      terminator included; everything after them is left alone. */
  function CmdlineImage(mi: MultibootInfo, maxlen: nat, ukName: seq<Byte>): (img: seq<Byte>)
    requires CmdlineSourceOk(mi, maxlen, ukName)
    ensures 1 <= |img| <= maxlen && img[|img| - 1] == Nul
    ensures Nul !in img[..|img| - 1]
  {
    if HasCmdline(mi.flags) then
      var n := CopyLength(mi.cmdline, maxlen);
      assert forall i :: 0 <= i < n ==> mi.cmdline[..n][i] != Nul;
      mi.cmdline[..n] + [Nul]
    else
      assert (ukName + [Nul])[..|ukName|] == ukName;
      ukName + [Nul]
  }

  /** The diagnostics the extraction emits. */
  function CmdlineMessages(mi: MultibootInfo, maxlen: nat, ukName: seq<Byte>): (log: seq<Diagnostic>)
    requires CmdlineSourceOk(mi, maxlen, ukName)
    ensures |log| <= 1
    ensures log == [NoCmdlineFound] <==> !HasCmdline(mi.flags)
    ensures log == [CmdlineTruncated] <==> HasCmdline(mi.flags) && StrLen(mi.cmdline) >= maxlen
  {
    if !HasCmdline(mi.flags) then [NoCmdlineFound]
    else if StrLen(mi.cmdline) >= maxlen then [CmdlineTruncated]
    else []
  }

  /** `_mb_get_cmdline(mi, cmdline, maxlen)`. The buffer must have room for
      `maxlen` bytes; nothing at index `maxlen` or beyond is written, nor
      anything after the terminator. */
  method GetCmdline(mi: MultibootInfo, cmdline: array<Byte>, maxlen: nat, ukName: seq<Byte>)
    returns (log: seq<Diagnostic>)
    requires CmdlineSourceOk(mi, maxlen, ukName) && maxlen <= cmdline.Length
    modifies cmdline
    ensures var img := CmdlineImage(mi, maxlen, ukName);
      cmdline[..] == img + old(cmdline[..])[|img|..]
    ensures log == CmdlineMessages(mi, maxlen, ukName)
  {
    ghost var img := CmdlineImage(mi, maxlen, ukName);
    if HasCmdline(mi.flags) {
      var len := StrLen(mi.cmdline);
      log := [];
      if len >= maxlen {
        len := maxlen - 1;
        log := [CmdlineTruncated];
      }
      // memcpy(cmdline, mi_cmdline, cmdline_len)
      forall i | 0 <= i < len {
        cmdline[i] := mi.cmdline[i];
      }
      // the terminator goes right after the copied bytes
      cmdline[if len <= maxlen - 1 then len else maxlen - 1] := Nul;
    } else {
      log := [NoCmdlineFound];
      // strcpy(cmdline, UK_NAME)
      forall i | 0 <= i < |ukName| {
        cmdline[i] := ukName[i];
      }
      cmdline[|ukName|] := Nul;
    }
    assert cmdline[..] == img + old(cmdline[..])[|img|..];
  }

  /** Reading the buffer back as a C string gives the command line, cut to
      `maxlen - 1` bytes, or UK_NAME when there is none, whatever follows
      the terminator. */
  lemma ExtractedString(mi: MultibootInfo, maxlen: nat, ukName: seq<Byte>, rest: seq<Byte>)
    requires CmdlineSourceOk(mi, maxlen, ukName)
    ensures var buf := CmdlineImage(mi, maxlen, ukName) + rest;
      Nul in buf && CString(buf) == if !HasCmdline(mi.flags) then ukName
        else if StrLen(mi.cmdline) < maxlen then mi.cmdline[..StrLen(mi.cmdline)]
        else mi.cmdline[..maxlen - 1]
  {
    var img := CmdlineImage(mi, maxlen, ukName);
    var buf := img + rest;
    var k := |img| - 1;
    forall i | 0 <= i < k ensures buf[i] != Nul {
      assert buf[i] == img[..k][i];
    }
    StrLenIsFirstNul(buf, k);
    assert CString(buf) == img[..k];
  }

  /** The source shorter than the buffer: copied whole, terminator at its
      length, no diagnostic. */
  lemma FitsCopiedWhole(mi: MultibootInfo, maxlen: nat, ukName: seq<Byte>)
    requires CmdlineSourceOk(mi, maxlen, ukName)
    requires HasCmdline(mi.flags) && StrLen(mi.cmdline) < maxlen
    ensures var img, len := CmdlineImage(mi, maxlen, ukName), StrLen(mi.cmdline);
      |img| == len + 1 && img[..len] == mi.cmdline[..len] && img[len] == Nul
      && CmdlineMessages(mi, maxlen, ukName) == []
  {
  }

  /** The source as long as the buffer or longer: exactly `maxlen - 1` bytes
      copied, terminator forced at `maxlen - 1`, one truncation diagnostic. */
  lemma LongTruncated(mi: MultibootInfo, maxlen: nat, ukName: seq<Byte>)
    requires CmdlineSourceOk(mi, maxlen, ukName)
    requires HasCmdline(mi.flags) && StrLen(mi.cmdline) >= maxlen
    ensures var img := CmdlineImage(mi, maxlen, ukName);
      |img| == maxlen && img[..maxlen - 1] == mi.cmdline[..maxlen - 1] && img[maxlen - 1] == Nul
      && CmdlineMessages(mi, maxlen, ukName) == [CmdlineTruncated]
  {
  }

  /** No command line: UK_NAME and its terminator, one "no command line"
      diagnostic. */
  lemma AbsentGivesDefault(mi: MultibootInfo, maxlen: nat, ukName: seq<Byte>)
    requires CmdlineSourceOk(mi, maxlen, ukName) && !HasCmdline(mi.flags)
    ensures CmdlineImage(mi, maxlen, ukName) == ukName + [Nul]
    ensures CmdlineMessages(mi, maxlen, ukName) == [NoCmdlineFound]
  {
  }
}
