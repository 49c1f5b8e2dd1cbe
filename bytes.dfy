/** Bytes, the sequence operations the driver uses on byte arrays (LINQ's
    Take and Skip, prefix comparison) and ASCII text conversion. */
module Bytes {

  newtype byte = b: int | 0 <= b < 256

  function Min(a: int, b: int): int { if a <= b then a else b }

  /** `s.Take(n)`: the first n elements, or all of s when it is shorter; nothing for n <= 0. */
  function Take<T>(s: seq<T>, n: int): (r: seq<T>)
    ensures |r| == if n <= 0 then 0 else Min(n, |s|)
    ensures r == s[..|r|]
  {
    if n <= 0 then [] else if n >= |s| then s else s[..n]
  }

  /** `s.Skip(n)`: everything after the first n elements; all of s for n <= 0. */
  function Skip<T>(s: seq<T>, n: int): (r: seq<T>)
    ensures |r| == if n <= 0 then |s| else |s| - Min(n, |s|)
    ensures r == s[|s| - |r|..]
  {
    if n <= 0 then s else if n >= |s| then [] else s[n..]
  }

  lemma TakeSkip<T>(s: seq<T>, n: int)
    ensures Take(s, n) + Skip(s, n) == s
  {
  }

  /** `s.Take(|p|).SequenceEqual(p)`. */
  predicate HasPrefix<T(==)>(s: seq<T>, p: seq<T>)
  {
    Take(s, |p|) == p
  }

  function Zeros(n: nat): (r: seq<byte>)
    ensures |r| == n && forall i :: 0 <= i < n ==> r[i] == 0
  {
    seq(n, _ => 0)
  }

  /** How many UTF-16 code units .NET stores for a character: two (a surrogate pair) for
      one outside the Basic Multilingual Plane, otherwise one. */
  function Utf16Units(c: char): nat
  {
    if c as int < 0x1_0000 then 1 else 2
  }

  /** The length of a string as .NET counts it, in UTF-16 code units. */
  function Utf16Length(s: string): (n: nat)
    ensures |s| <= n <= 2 * |s|
  {
    if s == [] then 0 else Utf16Units(s[0]) + Utf16Length(s[1..])
  }

  /** What Encoding.ASCII.GetBytes writes for one character: the character itself when it
      is 7-bit ASCII, otherwise the replacement '?' once per UTF-16 code unit. */
  function AsciiChar(c: char): (r: seq<byte>)
    ensures |r| == Utf16Units(c) && forall i :: 0 <= i < |r| ==> r[i] < 128
  {
    if c as int < 128 then [c as int as byte] else if c as int < 0x1_0000 then [0x3f] else [0x3f, 0x3f]
  }

  /** Encoding.ASCII.GetBytes: one byte per UTF-16 code unit, every one of them 7-bit. */
  function AsciiBytes(s: string): (r: seq<byte>)
    ensures |r| == Utf16Length(s)
    ensures forall i :: 0 <= i < |r| ==> r[i] < 128
  {
    if s == [] then [] else AsciiChar(s[0]) + AsciiBytes(s[1..])
  }

  /** On text within the Basic Multilingual Plane the encoding is one byte per character:
      the character itself when it is 7-bit, '?' otherwise. */
  lemma {:induction false} AsciiBytesPlain(s: string)
    requires forall i :: 0 <= i < |s| ==> s[i] as int < 0x1_0000
    ensures |AsciiBytes(s)| == |s|
    ensures forall i :: 0 <= i < |s| ==> AsciiBytes(s)[i] == if s[i] as int < 128 then s[i] as int as byte else 0x3f
  {
    if s != [] {
      AsciiBytesPlain(s[1..]);
      forall i | 1 <= i < |s|
        ensures AsciiBytes(s)[i] == AsciiBytes(s[1..])[i - 1]
      {
      }
    }
  }

  /** A character outside the Basic Multilingual Plane is a surrogate pair in .NET, so it
      is replaced by two '?'. */
  lemma AsciiSurrogatePair(c: char)
    requires c as int >= 0x1_0000
    ensures AsciiBytes([c]) == [0x3f, 0x3f]
  {
    assert [c][1..] == [];
  }

  /** Encoding and decoding 7-bit ASCII text gives the text back. */
  lemma AsciiRoundTrip(s: string)
    requires forall i :: 0 <= i < |s| ==> s[i] as int < 128
    ensures AsciiString(AsciiBytes(s)) == s
  {
    AsciiBytesPlain(s);
  }

  /** Encoding.ASCII.GetString: every byte above 0x7f becomes '?'. */
  function AsciiString(b: seq<byte>): (r: string)
    ensures |r| == |b|
    ensures forall i :: 0 <= i < |b| ==> r[i] as int < 128
  {
    seq(|b|, i requires 0 <= i < |b| => if b[i] < 128 then b[i] as int as char else '?')
  }
}

/** The failures the driver raises, and the result type that carries them. */
module Outcomes {
  import opened Bytes

  datatype Error =
    | WriteFailed                 // "Error writing to device"
    | ReadFailed                  // "Error reading from device" (also a read timeout)
    | ErrorHeader                 // "Error in response header": the token answered with STAT_ERR
    | WrongCid                    // "Wrong CID from device"
    | WrongSeq                    // "Wrong SEQ from device"
    | ShortBuffer                 // an index or BitConverter read past the end of a short buffer
    | Apdu(status: int)           // ApduException carrying the status word
    | UnsupportedVersion(version: string)
    | NotConnected                // ArgumentException: device null or not connected
    | Cancelled                   // OperationCanceledException from the cancellation token
    | Rejected                    // the U2F library refused the finished registration or assertion

  datatype Result<+T> = Ok(value: T) | Err(error: Error)

  /** A value that may be absent, such as a C# argument left null. */
  datatype Option<+T> = None | Some(value: T)
}
