/** Skipping trailing spaces eight bytes at a time. */
module TrailingSpace {

  newtype byte = x: int | 0 <= x < 256

  const SPACE: byte := 0x20

  const EIGHT_SPACES: int := 0x2020_2020_2020_2020

  /** Four bytes from position at on, least significant first. */
  function Half(s: seq<byte>, at: nat): int
    requires at + 4 <= |s|
  {
    s[at] as int + s[at + 1] as int * 0x100 + s[at + 2] as int * 0x1_0000 + s[at + 3] as int * 0x100_0000
  }

  /** uint8korr: the eight bytes from position at on, least significant first, by way of two 32-bit halves. */
  function Uint8Korr(s: seq<byte>, at: nat): int
    requires at + 8 <= |s|
  {
    var low, high := Half(s, at), Half(s, at + 4);
    low + high * 0x1_0000_0000
  }

  /** The word has its bytes in order of significance, the first the least. */
  lemma BytesOfWord(s: seq<byte>, at: nat)
    requires at + 8 <= |s|
    ensures Uint8Korr(s, at) ==
      s[at] as int + s[at + 1] as int * 0x100 + s[at + 2] as int * 0x1_0000 + s[at + 3] as int * 0x100_0000
      + s[at + 4] as int * 0x1_0000_0000 + s[at + 5] as int * 0x100_0000_0000
      + s[at + 6] as int * 0x1_0000_0000_0000 + s[at + 7] as int * 0x100_0000_0000_0000
  {
  }

  lemma HalfIsUnique(a: byte, b: byte, c: byte, d: byte)
    ensures a as int + b as int * 0x100 + c as int * 0x1_0000 + d as int * 0x100_0000 == 0x2020_2020 <==>
      a == SPACE && b == SPACE && c == SPACE && d == SPACE
  {
  }

  /** The word is eight spaces exactly when every byte is a space. */
  lemma WordIsEightSpacesIff(s: seq<byte>, at: nat)
    requires at + 8 <= |s|
    ensures Uint8Korr(s, at) == EIGHT_SPACES <==> forall i :: at <= i < at + 8 ==> s[i] == SPACE
  {
    var low, high := Half(s, at), Half(s, at + 4);
    HalfIsUnique(s[at], s[at + 1], s[at + 2], s[at + 3]);
    HalfIsUnique(s[at + 4], s[at + 5], s[at + 6], s[at + 7]);
    assert 0 <= low < 0x1_0000_0000 && EIGHT_SPACES == 0x2020_2020 + 0x2020_2020 * 0x1_0000_0000;
    assert Uint8Korr(s, at) == EIGHT_SPACES <==> low == 0x2020_2020 && high == 0x2020_2020;
    assert (forall i :: at <= i < at + 8 ==> s[i] == SPACE) <==>
      (s[at] == SPACE && s[at + 1] == SPACE && s[at + 2] == SPACE && s[at + 3] == SPACE &&
       s[at + 4] == SPACE && s[at + 5] == SPACE && s[at + 6] == SPACE && s[at + 7] == SPACE);
  }

  /** The naive backward scan: how much of s is left without its trailing spaces. */
  function Trimmed(s: seq<byte>): (n: nat)
    ensures n <= |s|
    ensures forall i :: n <= i < |s| ==> s[i] == SPACE
    ensures n == 0 || s[n - 1] != SPACE
  {
    if s != [] && s[|s| - 1] == SPACE then Trimmed(s[..|s| - 1]) else |s|
  }

  /** It is the only length followed by spaces alone and preceded by none. */
  lemma TrimmedIsUnique(s: seq<byte>, n: nat)
    requires n <= |s|
    ensures n == Trimmed(s) <==> (forall i :: n <= i < |s| ==> s[i] == SPACE) && (n == 0 || s[n - 1] != SPACE)
  {
    var t := Trimmed(s);
    if n < t {
      assert s[t - 1] != SPACE;
    }
  }

  /** skip_trailing_space on the len bytes of a buffer from ptr on: the position after the last that is no space. */
  method SkipTrailingSpace(buffer: array<byte>, ptr: nat, len: nat) returns (end: nat)
    requires ptr + len <= buffer.Length
    ensures end == ptr + Trimmed(buffer[ptr..ptr + len])
  {
    end := ptr + len;
    while end - ptr >= 8
      invariant ptr <= end <= ptr + len
      invariant forall i :: end <= i < ptr + len ==> buffer[i] == SPACE
    {
      WordIsEightSpacesIff(buffer[..], end - 8);
      if Uint8Korr(buffer[..], end - 8) != EIGHT_SPACES {
        break;
      }
      end := end - 8;
    }
    while end > ptr && buffer[end - 1] == SPACE
      invariant ptr <= end <= ptr + len
      invariant forall i :: end <= i < ptr + len ==> buffer[i] == SPACE
    {
      end := end - 1;
    }
    TrimmedIsUnique(buffer[ptr..ptr + len], end - ptr);
  }
}
