/** Fixed-capacity strings: truncating append and comparison on zero-terminated character buffers. */
module TextBuffers {

  const NUL: char := '\0'

  /** The number of characters before the terminator, or all of them: strnlen. */
  function Length(chars: seq<char>): (n: nat)
    ensures n <= |chars| && (n < |chars| ==> chars[n] == NUL)
    ensures forall i :: 0 <= i < n ==> chars[i] != NUL
  {
    if chars == [] || chars[0] == NUL then 0 else 1 + Length(chars[1..])
  }

  predicate Terminated(chars: seq<char>) {
    Length(chars) < |chars|
  }

  /** The string that a buffer holds. */
  function Text(chars: seq<char>): (text: seq<char>)
    ensures |text| == Length(chars) && NUL !in text
  {
    chars[..Length(chars)]
  }

  function Truncate(text: seq<char>, most: nat): (t: seq<char>)
    ensures t <= text && |t| == if |text| <= most then |text| else most
  {
    if |text| <= most then text else text[..most]
  }

  lemma {:induction false} LengthIs(chars: seq<char>, n: nat)
    requires n < |chars| && chars[n] == NUL && forall i :: 0 <= i < n ==> chars[i] != NUL
    ensures Length(chars) == n
  {
    if n == 0 {
    } else {
      assert forall i :: 0 <= i < n - 1 ==> chars[1..][i] != NUL;
      LengthIs(chars[1..], n - 1);
    }
  }

  /** The text of a buffer is what is in front of its first zero character, or all of it. */
  lemma {:induction false} TextOf(text: seq<char>, behind: seq<char>)
    requires '\0' !in text
    ensures Text(text + ['\0'] + behind) == text && Text(text) == text
  {
    var chars := text + ['\0'] + behind;
    LengthIs(chars, |text|);
  }

  function Concat(pieces: seq<seq<char>>): seq<char> {
    if pieces == [] then [] else Concat(pieces[..|pieces| - 1]) + pieces[|pieces| - 1]
  }

  /** Truncating early or late makes no difference. */
  lemma TruncateTwice(a: seq<char>, b: seq<char>, most: nat)
    ensures Truncate(Truncate(a, most) + b, most) == Truncate(a + b, most)
  {}

  /** One more character is kept as long as there is room for it. */
  lemma TruncateNext(text: seq<char>, c: char, most: nat)
    ensures Truncate(text + [c], most) == if |text| < most then Truncate(text, most) + [c] else Truncate(text, most)
  {}

  class StringBase {
    const buf: array<char>

    /** An empty string in a buffer of some capacity. */
    constructor (capacity: nat)
      requires capacity > 0
      ensures fresh(buf) && buf.Length == capacity && Terminated(buf[..]) && Text(buf[..]) == []
    {
      buf := new char[capacity](_ => NUL);
      new;
      LengthIs(buf[..], 0);
    }

    /** Append a zero-terminated string. What does not fit is dropped; a buffer without terminator is left alone. */
    method AppendBuff(src: seq<char>)
      requires NUL !in src
      modifies buf
      ensures Terminated(old(buf[..])) ==>
                Terminated(buf[..]) && Text(buf[..]) == Truncate(old(Text(buf[..])) + src, buf.Length - 1)
      ensures !Terminated(old(buf[..])) ==> buf[..] == old(buf[..])
    {
      hide Truncate;
      ghost var before := buf[..];
      var d := 0;
      while d < buf.Length && buf[d] != NUL
        invariant 0 <= d <= buf.Length && forall i :: 0 <= i < d ==> buf[i] != NUL
      {
        d := d + 1;
      }
      ghost var dlen := d;
      var n := buf.Length - d;
      if n == 0 {
        assert !Terminated(before);
        return;
      }
      LengthIs(before, d);
      var s := 0;
      while s < |src|
        invariant 0 <= s <= |src| && n == buf.Length - d && n >= 1
        invariant buf[..d] == Truncate(before[..dlen] + src[..s], buf.Length - 1)
      {
        assert before[..dlen] + src[..s + 1] == before[..dlen] + src[..s] + [src[s]];
        TruncateNext(before[..dlen] + src[..s], src[s], buf.Length - 1);
        if n != 1 {
          buf[d] := src[s];
          d := d + 1;
          n := n - 1;
        }
        s := s + 1;
      }
      assert src[..s] == src;
      buf[d] := NUL;
      forall i | 0 <= i < d ensures buf[i] != NUL {
        assert buf[i] == buf[..d][i];
        assert buf[..d][i] in before[..dlen] + src;
      }
      LengthIs(buf[..], d);
    }

    /** Any sequence of appends keeps the first capacity - 1 characters of the whole concatenation. */
    method AppendAll(pieces: seq<seq<char>>)
      requires Terminated(buf[..]) && forall i :: 0 <= i < |pieces| ==> NUL !in pieces[i]
      modifies buf
      ensures Terminated(buf[..])
      ensures Text(buf[..]) == Truncate(old(Text(buf[..])) + Concat(pieces), buf.Length - 1)
    {
      hide Truncate, Length;
      ghost var start := Text(buf[..]);
      assert start + Concat(pieces[..0]) == start;
      for i := 0 to |pieces|
        invariant Terminated(buf[..])
        invariant Text(buf[..]) == Truncate(start + Concat(pieces[..i]), buf.Length - 1)
      {
        assert pieces[..i + 1][..i] == pieces[..i];
        assert start + Concat(pieces[..i]) + pieces[i] == start + Concat(pieces[..i + 1]);
        TruncateTwice(start + Concat(pieces[..i]), pieces[i], buf.Length - 1);
        AppendBuff(pieces[i]);
      }
      assert pieces[..|pieces|] == pieces;
    }

    /** Compare with characters that end in a terminator or are at least as many: only this string's own length is
        looked at, so the comparison holds exactly when this string is a prefix of the other. */
    method EqualsChars(other: seq<char>) returns (equal: bool)
      requires Terminated(other) || Length(buf[..]) <= |other|
      ensures equal <==> Text(buf[..]) <= Text(other)
    {
      var len := Length(buf[..]);
      for byte := 0 to len
        invariant byte <= |Text(other)| && buf[..byte] == Text(other)[..byte]
      {
        if buf[byte] != other[byte] {
          assert byte < |Text(other)| ==> Text(buf[..])[byte] != Text(other)[byte];
          return false;
        }
      }
      return true;
    }

    /** Compare with another string: equality of the contents, terminated or not. */
    method Equals(other: StringBase) returns (equal: bool)
      ensures equal <==> Text(buf[..]) == Text(other.buf[..])
    {
      var len := Length(buf[..]);
      if len != Length(other.buf[..]) {
        return false;
      }
      equal := EqualsChars(other.buf[..]);
    }
  }

  /** The comparison with characters answers whether the strings are equal if and only if this string is not a proper
      prefix of the other. */
  lemma PrefixIsEqualityIff(text: seq<char>, other: seq<char>)
    ensures ((text <= other) == (text == other)) <==> !(text < other)
  {}

  /** A comparison that holds although the strings differ. */
  lemma PrefixComparesEqual()
    ensures Text(['a', NUL]) <= Text(['a', 'b', NUL]) && Text(['a', NUL]) != Text(['a', 'b', NUL])
  {
    LengthIs(['a', NUL], 1);
    LengthIs(['a', 'b', NUL], 2);
  }
}
