/** The kernel string routines path resolution rests on (kernel/kstring.c), over
  * NUL-terminated character buffers. */
module KString {
  import opened Paths

  /** The C string that starts at index `from` of a buffer. */
  function CStr(buf: seq<char>, from: nat): string
    requires from <= |buf|
    decreases |buf| - from
  {
    if from == |buf| || buf[from] == '\0' then "" else [buf[from]] + CStr(buf, from + 1)
  }

  /** A terminator lies at or after `from`. */
  predicate Terminated(buf: seq<char>, from: nat) {
    exists k :: from <= k < |buf| && buf[k] == '\0'
  }

  lemma {:induction false} CStrAt(buf: seq<char>, from: nat, n: nat)
    requires from + n < |buf| && buf[from + n] == '\0'
    requires forall k | from <= k < from + n :: buf[k] != '\0'
    ensures CStr(buf, from) == buf[from..from + n]
    decreases n
  {
    if n > 0 {
      CStrAt(buf, from + 1, n - 1);
      assert buf[from..from + n] == [buf[from]] + buf[from + 1..from + n];
    }
  }

  lemma {:induction false} CStrSplit(buf: seq<char>, from: nat, mid: nat)
    requires from <= mid <= |buf|
    requires forall k | from <= k < mid :: buf[k] != '\0'
    ensures CStr(buf, from) == buf[from..mid] + CStr(buf, mid)
    decreases mid - from
  {
    if from < mid {
      CStrSplit(buf, from + 1, mid);
      assert buf[from..mid] == [buf[from]] + buf[from + 1..mid];
    }
  }

  /** Characters before `from` do not matter. */
  lemma {:induction false} CStrFrame(buf: seq<char>, buf': seq<char>, from: nat)
    requires |buf| == |buf'| && from <= |buf|
    requires forall k | from <= k < |buf| :: buf[k] == buf'[k]
    ensures CStr(buf, from) == CStr(buf', from)
    decreases |buf| - from
  {
    if from < |buf| {
      CStrFrame(buf, buf', from + 1);
    }
  }

  /** k_strlen. */
  method StrLen(s: array<char>) returns (n: nat)
    requires Terminated(s[..], 0)
    ensures n < s.Length && s[n] == '\0' && s[..n] == CStr(s[..], 0)
  {
    n := 0;
    while s[n] != '\0'
      invariant n < s.Length
      invariant forall k | 0 <= k < n :: s[k] != '\0'
      invariant exists k :: n <= k < s.Length && s[k] == '\0'
      decreases s.Length - n
    {
      n := n + 1;
    }
    CStrAt(s[..], 0, n);
    assert s[..][0..n] == s[..n];
  }

  /** k_strncpy: copies at most n characters and pads the rest of the n with NULs. */
  method StrNCpy(dst: array<char>, src: string, n: nat)
    requires n <= dst.Length && '\0' !in src
    modifies dst
    ensures forall k | 0 <= k < n :: dst[k] == if k < |src| then src[k] else '\0'
    ensures forall k | n <= k < dst.Length :: dst[k] == old(dst[k])
  {
    var i := 0;
    while i < n && i < |src|
      invariant i <= n && i <= |src|
      invariant forall k | 0 <= k < i :: dst[k] == src[k]
      invariant forall k | i <= k < dst.Length :: dst[k] == old(dst[k])
    {
      dst[i] := src[i];
      i := i + 1;
    }
    while i < n
      invariant i <= n && (i < |src| ==> i == n)
      invariant forall k | 0 <= k < i :: dst[k] == if k < |src| then src[k] else '\0'
      invariant forall k | n <= k < dst.Length :: dst[k] == old(dst[k])
    {
      dst[i] := '\0';
      i := i + 1;
    }
  }

  /** k_strrchr(s, '/'): the last slash, -1 standing for the null pointer. */
  method StrRChr(s: string) returns (last: int)
    ensures last == LastSlash(s)
  {
    last := -1;
    var i := 0;
    while i < |s|
      invariant 0 <= i <= |s|
      invariant last == LastSlashBefore(s, i)
    {
      if s[i] == '/' {
        last := i;
      }
      i := i + 1;
    }
  }

  datatype Token = NoToken | Token(text: string)

  /** k_strtok with the delimiter "/": a buffer and the saved position within it. */
  class Tokenizer {
    const buf: array<char>
    var saved: nat

    ghost predicate Valid()
      reads this, buf
    {
      saved < buf.Length && Terminated(buf[..], saved)
    }

    /** What has not been tokenised yet. */
    ghost function Remaining(): string
      requires Valid()
      reads this, buf
    {
      CStr(buf[..], saved)
    }

    /** The first call: the path is copied into a buffer and scanned from its start. */
    constructor (path: string)
      requires '\0' !in path
      ensures Valid() && fresh(buf)
      ensures Remaining() == path
    {
      buf := new char[|path| + 1](i requires 0 <= i => if i < |path| then path[i] else '\0');
      saved := 0;
      new;
      assert buf[..][|path|] == '\0';
      CStrAt(buf[..], 0, |path|);
      assert buf[..][0..|path|] == path;
    }

    /** The loop over leading separators. */
    method SkipSlashes()
      requires Valid()
      modifies this`saved
      ensures Valid() && buf[saved] != '/' && Tokens(Remaining()) == Tokens(old(Remaining()))
    {
      while buf[saved] != '\0' && buf[saved] == '/'
        invariant Valid() && Tokens(Remaining()) == Tokens(old(Remaining()))
        decreases buf.Length - saved
      {
        assert Remaining() == "/" + CStr(buf[..], saved + 1);
        assert Remaining()[1..] == CStr(buf[..], saved + 1);
        saved := saved + 1;
      }
    }

    /** The loop over the token's characters. */
    method SkipToken() returns (start: nat)
      requires Valid()
      modifies this`saved
      ensures start == old(saved) <= saved && Valid() && (buf[saved] == '\0' || buf[saved] == '/')
      ensures forall k | start <= k < saved :: buf[k] != '\0' && buf[k] != '/'
    {
      start := saved;
      while buf[saved] != '\0' && buf[saved] != '/'
        invariant start <= saved && Valid()
        invariant forall k | start <= k < saved :: buf[k] != '\0' && buf[k] != '/'
        decreases buf.Length - saved
      {
        saved := saved + 1;
      }
    }

    /** One call: skip slashes, return the token and cut the buffer after it. */
    method Next() returns (t: Token)
      requires Valid()
      modifies this, buf
      ensures Valid()
      ensures t == if Tokens(old(Remaining())) == [] then NoToken else Token(Tokens(old(Remaining()))[0])
      ensures Tokens(Remaining()) ==
              if Tokens(old(Remaining())) == [] then [] else Tokens(old(Remaining()))[1..]
    {
      SkipSlashes();
      if buf[saved] == '\0' {
        assert Remaining() == "";
        return NoToken;
      }
      ghost var before := buf[..];
      var start := SkipToken();
      TokenAhead(before, start, saved);
      t := Token(buf[start..saved]);
      if buf[saved] == '/' {
        TokensAfterCut(before, saved);
        buf[saved] := '\0';
        saved := saved + 1;
        assert buf[..] == before[saved - 1 := '\0'];
      }
    }
  }

  /** The next token of a buffer, and what is left after it. */
  lemma TokenAhead(buf: seq<char>, start: nat, end: nat)
    requires start < end < |buf| && (buf[end] == '\0' || buf[end] == '/')
    requires forall k | start <= k < end :: buf[k] != '\0' && buf[k] != '/'
    ensures Tokens(CStr(buf, start)) == [buf[start..end]] + Tokens(CStr(buf, end))
  {
    CStrSplit(buf, start, end);
    TokenHead(buf[start..end], CStr(buf, end));
  }

  /** A separator is no part of a token. */
  lemma TokensPastSlash(buf: seq<char>, at: nat)
    requires at < |buf| && buf[at] == '/'
    ensures Tokens(CStr(buf, at)) == Tokens(CStr(buf, at + 1))
  {
    var s, rest := CStr(buf, at), CStr(buf, at + 1);
    assert s == ['/'] + rest;
    assert s[1..] == rest;
  }

  lemma StillTerminated(buf: seq<char>, at: nat)
    requires at < |buf| && buf[at] == '/' && Terminated(buf, at)
    ensures Terminated(buf[at := '\0'], at + 1)
  {
    var k :| at <= k < |buf| && buf[k] == '\0';
    assert buf[at := '\0'][k] == '\0';
  }

  /** Writing a NUL over the separator loses none of the tokens behind it. */
  lemma TokensAfterCut(buf: seq<char>, end: nat)
    requires end < |buf| && buf[end] == '/' && Terminated(buf, end)
    ensures Terminated(buf[end := '\0'], end + 1)
    ensures Tokens(CStr(buf[end := '\0'], end + 1)) == Tokens(CStr(buf, end))
  {
    StillTerminated(buf, end);
    CStrFrame(buf, buf[end := '\0'], end + 1);
    TokensPastSlash(buf, end);
  }

  lemma TokenHead(head: string, tail: string)
    requires head != "" && '/' !in head && (tail == "" || tail[0] == '/')
    ensures Tokens(head + tail) == [head] + Tokens(tail)
  {
    SpanStops(head, tail);
    assert (head + tail)[..|head|] == head && (head + tail)[|head|..] == tail;
  }

  lemma {:induction false} SpanStops(head: string, tail: string)
    requires '/' !in head && (tail == "" || tail[0] == '/')
    ensures Span(head + tail) == |head|
  {
    if head == "" {
      assert head + tail == tail;
    } else {
      assert (head + tail)[1..] == head[1..] + tail;
      SpanStops(head[1..], tail);
    }
  }
}
