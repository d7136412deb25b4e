/**
  The two buffering stages between printf and the EFI console: _vprintf_putcf of c/stdio.c, and the chunked
  LF to CRLF conversion of efi/start_main.c. The formatter hands its output to a callback one character at a
  time; here that output is any text.
 */
module Console {

  /** Size of the buffer in vfprintf, and of the chunks in efi_conio_write. */
  const BLOCK: nat := 64

  // ---------- What the console is to show ----------

  /** (CHAR16)c: a char from 128 to 255 stands for a negative one, whose sign is extended. */
  function Widen(c: char): (w: char)
    ensures w == '\0' <==> c == '\0'
    ensures c as int < 128 ==> w == c
    ensures 128 <= c as int < 256 ==> w as int == 0x1_0000 - (256 - c as int)
  {
    if 128 <= c as int < 256 then (c as int + 0xff00) as char else c
  }

  /** What a char shows as: an LF with a CR in front. */
  ghost function Shows(c: char): seq<char> {
    if c == '\n' then ['\r', '\n'] else [Widen(c)]
  }

  ghost function Crlf(text: seq<char>): seq<char> {
    if text == [] then []
    else
      var last := |text| - 1;
      Crlf(text[..last]) + Shows(text[last])
  }

  /** A C string in a buffer of bytes. */
  ghost function UpToNul(text: seq<char>): (r: seq<char>)
    ensures r <= text && '\0' !in r
    ensures |r| < |text| ==> text[|r|] == '\0'
  {
    if text == [] || text[0] == '\0' then [] else [text[0]] + UpToNul(text[1..])
  }

  /** What a text shows when it is written in blocks, each shown up to its first NUL. */
  ghost function Shown(text: seq<char>): seq<char>
    decreases |text|
  {
    if |text| <= BLOCK then Crlf(UpToNul(text)) else Crlf(UpToNul(text[..BLOCK])) + Shown(text[BLOCK..])
  }

  lemma CrlfPush(a: seq<char>, c: char)
    ensures Crlf(a + [c]) == Crlf(a) + Shows(c)
  {
    hide Shows;
    assert (a + [c])[..|a|] == a;
  }

  lemma CrlfOfNothing()
    ensures Crlf([]) == []
  {
  }

  lemma CrlfAppendPush(a: seq<char>, b: seq<char>, c: char)
    requires Crlf(a + b) == Crlf(a) + Crlf(b)
    ensures Crlf(a + (b + [c])) == Crlf(a) + Crlf(b + [c])
  {
    hide Crlf, Shows;
    AppendAssociates(a, b, [c]);
    CrlfPush(a + b, c);
    CrlfPush(b, c);
    AppendAssociates(Crlf(a), Crlf(b), Shows(c));
  }

  lemma {:induction false} CrlfAppend(a: seq<char>, b: seq<char>)
    ensures Crlf(a + b) == Crlf(a) + Crlf(b)
  {
    hide Crlf;
    if b == [] {
      CrlfOfNothing();
      assert a + b == a && Crlf(a) + [] == Crlf(a);
      return;
    }
    var front, c := b[..|b| - 1], b[|b| - 1];
    CrlfAppend(a, front);
    CrlfAppendPush(a, front, c);
    assert front + [c] == b;
  }

  /** Every LF on the console follows a CR. */
  lemma {:induction false} EveryLfFollowsCr(text: seq<char>, i: nat)
    requires i < |Crlf(text)| && Crlf(text)[i] == '\n'
    ensures i > 0 && Crlf(text)[i - 1] == '\r'
  {
    var front := text[..|text| - 1];
    if i < |Crlf(front)| {
      EveryLfFollowsCr(front, i);
    }
  }

  /** How many LFs a text has. */
  ghost function Lfs(text: seq<char>): nat {
    multiset(text)['\n']
  }

  lemma LfsPush(text: seq<char>, c: char)
    ensures Lfs(text + [c]) == Lfs(text) + if c == '\n' then 1 else 0
  {
  }

  /** One character is added for each LF. */
  lemma {:induction false} OneMorePerLf(text: seq<char>)
    ensures |Crlf(text)| == |text| + Lfs(text)
  {
    if text == [] {
      return;
    }
    hide Crlf, Lfs;
    var front, c := text[..|text| - 1], text[|text| - 1];
    assert text == front + [c];
    OneMorePerLf(front);
    CrlfPush(front, c);
    LfsPush(front, c);
  }

  /** Nothing is lost: each character comes later by one place for each LF up to it. */
  lemma {:induction false} EachCharIsShown(text: seq<char>, k: nat)
    requires k < |text|
    ensures var at := k + Lfs(text[..k + 1]); at < |Crlf(text)| && Crlf(text)[at] == Widen(text[k])
  {
    hide Crlf, Lfs, Widen;
    var front, c := text[..|text| - 1], text[|text| - 1];
    assert text == front + [c];
    CrlfPush(front, c);
    if k < |front| {
      EachCharIsShown(front, k);
      assert front[..k + 1] == text[..k + 1];
    } else {
      OneMorePerLf(text);
      ShowsEndsInChar(c);
      assert text[..k + 1] == text;
    }
  }

  lemma ShowsEndsInChar(c: char)
    ensures |Shows(c)| > 0 && Shows(c)[|Shows(c)| - 1] == Widen(c)
  {
  }

  /** ASCII text on one line is shown as it is. */
  lemma {:induction false} PlainTextStays(text: seq<char>)
    requires forall c :: c in text ==> c as int < 128 && c != '\n'
    ensures Crlf(text) == text
  {
    if text == [] {
      return;
    }
    hide Crlf;
    var front, c := text[..|text| - 1], text[|text| - 1];
    assert c in text && forall x :: x in front ==> x in text;
    assert text == front + [c];
    PlainTextStays(front);
    CrlfPush(front, c);
  }

  lemma {:induction false} CrlfLength(a: seq<char>)
    ensures |a| <= |Crlf(a)| <= 2 * |a|
  {
    if a != [] {
      CrlfLength(a[..|a| - 1]);
    }
  }

  lemma UpToNulWhole(text: seq<char>)
    ensures UpToNul(text) == text <==> '\0' !in text
  {
    var r := UpToNul(text);
    if |r| == |text| {
      assert r == text;
    }
  }

  lemma UpToNulShows(text: seq<char>)
    ensures |Crlf(UpToNul(text))| <= |Crlf(text)|
    ensures Crlf(UpToNul(text)) == Crlf(text) <==> '\0' !in text
    ensures |Crlf(UpToNul(text))| == |Crlf(text)| <==> '\0' !in text
  {
    var r := UpToNul(text);
    assert text == r + text[|r|..];
    CrlfAppend(r, text[|r|..]);
    CrlfLength(text[|r|..]);
    UpToNulWhole(text);
  }

  lemma {:induction false} ShownLength(text: seq<char>)
    ensures |Shown(text)| <= |Crlf(text)|
    ensures Shown(text) == Crlf(text) <==> '\0' !in text
    ensures |Shown(text)| == |Crlf(text)| <==> '\0' !in text
    decreases |text|
  {
    if |text| <= BLOCK {
      UpToNulShows(text);
    } else {
      var a, b := text[..BLOCK], text[BLOCK..];
      assert text == a + b;
      UpToNulShows(a);
      ShownLength(b);
      CrlfAppend(a, b);
    }
  }

  /** The console shows the whole text, with a CR before each LF, exactly when there is no NUL in it. */
  lemma ShownExact(text: seq<char>)
    ensures Shown(text) == Crlf(text) <==> '\0' !in text
  {
    ShownLength(text);
  }

  /** A NUL ends what is shown of its block. */
  lemma NulStopsText()
    ensures Shown("a\0b") == "a" != Crlf("a\0b")
  {
    ShownExact("a\0b");
    assert UpToNul("\0b") == [];
    assert "a\0b"[1..] == "\0b";
    assert UpToNul("a\0b") == "a";
  }

  /** The first 64 characters are shown up to their first NUL, then the rest; a shorter text likewise. */
  lemma ShownFullBlock(first: seq<char>, rest: seq<char>)
    requires |first| == 64 || (|first| < 64 && rest == [])
    ensures Shown(first + rest) == Crlf(UpToNul(first)) + Shown(rest)
    ensures rest == [] ==> Shown(first) == Crlf(UpToNul(first))
  {
    if rest == [] {
      assert first + rest == first;
    } else {
      assert (first + rest)[..BLOCK] == first && (first + rest)[BLOCK..] == rest;
    }
  }

  lemma CutAppend<T>(a: seq<T>, k: nat, b: seq<T>)
    requires k <= |a|
    ensures a == a[..k] + a[k..] && a + b == a[..k] + (a[k..] + b)
  {
  }

  lemma AppendCancels<T>(a: seq<T>, b: seq<T>, c: seq<T>)
    ensures a + b == a + c <==> b == c
  {
    if a + b == a + c {
      assert (a + b)[|a|..] == b && (a + c)[|a|..] == c;
    }
  }

  lemma AppendAssociates<T>(a: seq<T>, b: seq<T>, c: seq<T>)
    ensures a + (b + c) == (a + b) + c
  {
  }

  /** Blocks already written, and one more. */
  lemma {:induction false} ShownAppend(a: seq<char>, n: nat, b: seq<char>)
    requires |a| == BLOCK * n && 0 < |b| <= BLOCK
    ensures Shown(a + b) == Shown(a) + Crlf(UpToNul(b))
    decreases n
  {
    if n == 0 {
      assert a + b == b;
    } else {
      hide Shown, UpToNul, Crlf;
      var first, rest := a[..BLOCK], a[BLOCK..];
      CutAppend(a, BLOCK, b);
      ShownFullBlock(first, rest);
      ShownFullBlock(first, rest + b);
      ShownAppend(rest, n - 1, b);
      AppendAssociates(Crlf(UpToNul(first)), Shown(rest), Crlf(UpToNul(b)));
    }
  }

  lemma {:induction false} UpToNulSplit(prefix: seq<char>, rest: seq<char>)
    requires '\0' !in prefix
    ensures UpToNul(prefix + rest) == prefix + UpToNul(rest)
  {
    if prefix == [] {
      assert prefix + rest == rest;
    } else {
      assert (prefix + rest)[1..] == prefix[1..] + rest;
      UpToNulSplit(prefix[1..], rest);
      assert prefix == [prefix[0]] + prefix[1..];
    }
  }

  /** What a buffer shows, ahead of and after a position before its first NUL. */
  lemma ShowsPrefix(s8: seq<char>, k: nat)
    requires k <= |s8| && '\0' !in s8[..k]
    ensures Crlf(UpToNul(s8)) == Crlf(s8[..k]) + Crlf(UpToNul(s8[k..]))
  {
    hide Crlf, UpToNul;
    CutAppend(s8, k, []);
    UpToNulSplit(s8[..k], s8[k..]);
    CrlfAppend(s8[..k], UpToNul(s8[k..]));
  }

  lemma ShowsNothing(s8: seq<char>)
    requires s8 == [] || s8[0] == '\0'
    ensures Crlf(UpToNul(s8)) == []
  {
  }

  // ---------- The console side ----------

  class EfiConsole {
    var screen: seq<char>

    constructor ()
      ensures screen == []
    {
      screen := [];
    }

    /** The firmware shows a NUL-terminated string. */
    method Output(s16: array<char>, ghost n: nat)
      requires n < s16.Length && s16[n] == '\0' && '\0' !in s16[..n]
      modifies this
      ensures screen == old(screen) + s16[..n]
    {
      var i := 0;
      while s16[i] != '\0'
        invariant i <= n && screen == old(screen) + s16[..i]
        decreases n - i
      {
        screen := screen + [s16[i]];
        i := i + 1;
      }
    }

    /** Converts at most `len` characters of s8, and none from its first NUL on. */
    static method A2u(s16: array<char>, s8: seq<char>, len: nat) returns (i: nat, ghost n: nat)
      requires len <= |s8| && 2 * len + 1 <= s16.Length
      modifies s16
      ensures i <= len && '\0' !in s8[..i] && (i < len ==> s8[i] == '\0')
      ensures n < s16.Length && s16[..n] == Crlf(s8[..i]) && s16[n] == '\0' && '\0' !in s16[..n]
    {
      i, n := 0, 0;
      var to := 0;
      while i < len && s8[i] != '\0'
        invariant i <= len && n == to <= 2 * i
        invariant s16[..to] == Crlf(s8[..i]) && '\0' !in s16[..to] && '\0' !in s8[..i]
      {
        ghost var before, more := s16[..to], Shows(s8[i]);
        assert s8[..i + 1][..i] == s8[..i];
        if s8[i] == '\n' {
          s16[to] := '\r';
          to := to + 1;
        }
        s16[to] := Widen(s8[i]);
        to := to + 1;
        assert s16[..to] == before + more;
        n := to;
        i := i + 1;
      }
      s16[to] := '\0';
    }

    /** efi_conio_write: converts and shows chunk by chunk, until the buffer or its C string ends. */
    method Write(text: seq<char>) returns (written: nat)
      modifies this
      ensures screen == old(screen) + Crlf(UpToNul(text))
      ensures written == |text|
    {
      hide Crlf, UpToNul;
      var s16 := new char[BLOCK * 2 + 1];
      var s8 := text;
      while |s8| > 0
        invariant screen + Crlf(UpToNul(s8)) == old(screen) + Crlf(UpToNul(text))
        decreases |s8|
      {
        var sz := |s8|;
        var converted, n := A2u(s16, s8, if BLOCK > sz then sz else BLOCK);
        if converted <= 0 {
          break;
        }
        ShowsPrefix(s8, converted);
        Output(s16, n);
        s8 := s8[converted..];
        if converted >= sz {
          break;
        }
      }
      ShowsNothing(s8);
      written := |text|;
    }
  }

  // ---------- The printf side ----------

  /** A size_t returned as a 32-bit int. */
  function ToInt(n: nat): int {
    (n + 0x8000_0000) % 0x1_0000_0000 - 0x8000_0000
  }

  lemma ToIntExact(n: nat)
    ensures ToInt(n) == n <==> n < 0x8000_0000
    ensures -0x8000_0000 <= ToInt(n) < 0x8000_0000 && (n - ToInt(n)) % 0x1_0000_0000 == 0
  {
  }

  /** struct _vprintf_putcf_data, with the buffer that vfprintf allocates. */
  class PutcfData {
    const stream: EfiConsole
    const buff: array<char>
    var nBuffered: nat
    var totalWritten: nat

    ghost const screenBefore: seq<char>
    ghost var emitted: seq<char>  // the characters handed to the callback so far
    ghost var blocks: nat         // full blocks flushed

    /** The flushed blocks are on the screen, and the buffer holds what came after them. */
    ghost predicate Valid()
      reads this, buff, stream
    {
      && buff.Length == BLOCK && nBuffered < BLOCK
      && |emitted| == BLOCK * blocks + nBuffered && totalWritten == BLOCK * blocks
      && buff[..nBuffered] == emitted[BLOCK * blocks..]
      && stream.screen == screenBefore + Shown(emitted[..BLOCK * blocks])
    }

    constructor (stream: EfiConsole)
      ensures Valid() && emitted == [] && fresh(buff)
      ensures this.stream == stream && screenBefore == stream.screen
    {
      this.stream, buff := stream, new char[BLOCK];
      nBuffered, totalWritten, blocks := 0, 0, 0;
      screenBefore, emitted := stream.screen, [];
    }

    /** The callback. The capacity test cannot fail: no call leaves the buffer full. */
    method Putcf(c: char) returns (aborted: bool)
      requires Valid()
      modifies this, buff, stream
      ensures !aborted && Valid() && emitted == old(emitted) + [c]
    {
      hide Shown, Crlf, UpToNul;
      if nBuffered >= buff.Length {
        return true;
      }
      aborted := false;
      ghost var flushed := emitted[..BLOCK * blocks];
      buff[nBuffered] := c;
      nBuffered := nBuffered + 1;
      emitted := emitted + [c];
      assert buff[..nBuffered] == emitted[BLOCK * blocks..];
      assert emitted[..BLOCK * blocks] == flushed;
      if nBuffered >= buff.Length {
        ShownAppend(flushed, blocks, buff[..nBuffered]);
        assert emitted == flushed + buff[..nBuffered];
        var n := stream.Write(buff[..nBuffered]);
        if n > 0 {
          totalWritten := totalWritten + n;
        }
        nBuffered := 0;
        blocks := blocks + 1;
        assert emitted[..BLOCK * blocks] == emitted;
      }
    }
  }

  /**
    vfprintf on a stream, with `output` for what the formatter emits: all of it reaches the console, whatever
    the block boundaries, exactly when there is no NUL in it.
   */
  method Vfprintf(validStream: bool, stream: EfiConsole, output: seq<char>) returns (result: int)
    modifies stream
    ensures !validStream ==> result == -1 && stream.screen == old(stream.screen)
    ensures validStream ==> result == ToInt(|output|) && stream.screen == old(stream.screen) + Shown(output)
    ensures validStream ==> (result == |output| <==> |output| < 0x8000_0000)
    ensures validStream ==> (stream.screen == old(stream.screen) + Crlf(output) <==> '\0' !in output)
  {
    hide Shown, Crlf, UpToNul, ToInt;
    ShownExact(output);
    if !validStream {
      return -1;
    }
    var data := new PutcfData(stream);
    var i := 0;
    while i < |output|
      invariant i <= |output| && data.Valid() && data.emitted == output[..i]
      invariant fresh(data) && fresh(data.buff) && data.stream == stream && data.screenBefore == old(stream.screen)
    {
      var aborted := data.Putcf(output[i]);
      i := i + 1;
    }
    assert output[..i] == output;
    if data.nBuffered > 0 {
      ghost var flushed := output[..BLOCK * data.blocks];
      ShownAppend(flushed, data.blocks, data.buff[..data.nBuffered]);
      assert output == flushed + data.buff[..data.nBuffered];
      var n := stream.Write(data.buff[..data.nBuffered]);
      if n > 0 {
        data.totalWritten := data.totalWritten + n;
      }
    } else {
      assert output[..BLOCK * data.blocks] == output;
    }
    result := ToInt(data.totalWritten);
    ToIntExact(|output|);
    AppendCancels(old(stream.screen), Shown(output), Crlf(output));
  }

  // ---------- vsnprintf ----------

  /** The truncating sink: what fits is stored and NUL-terminated, and the full length is returned. */
  method Vsnprintf(dest: array<char>, size: nat, output: seq<char>) returns (result: int)
    requires size <= dest.Length
    modifies dest
    ensures result == ToInt(|output|) && (result == |output| <==> |output| < 0x8000_0000)
    ensures var kept := if |output| < size then |output| else size - 1;
            size > 0 ==> dest[..kept] == output[..kept] && dest[kept] == '\0' && dest[kept + 1..] == old(dest[kept + 1..])
    ensures size == 0 ==> dest[..] == old(dest[..])
  {
    var destUsed := 0;
    while destUsed < |output|
      invariant destUsed <= |output|
      invariant forall k :: 0 <= k < destUsed && k < size ==> dest[k] == output[k]
      invariant forall k :: 0 <= k < dest.Length && (k >= destUsed || k >= size) ==> dest[k] == old(dest[k])
    {
      if destUsed < size {
        dest[destUsed] := output[destUsed];
      }
      destUsed := destUsed + 1;
    }
    if destUsed < size {
      dest[destUsed] := '\0';
    } else if size > 0 {
      dest[size - 1] := '\0';
    }
    ToIntExact(destUsed);
    result := ToInt(destUsed);
  }
}
