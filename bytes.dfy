/**
 * Byte strings and the string operations of Ruby's core library that the
 * OAuth code relies on: String#split with a one-character separator other
 * than a space (line 25 of oauth.rb uses `=`), Array#join, String#include? and hexadecimal digits.
 */
module Bytes {

  /** A Ruby string is a sequence of bytes; the model holds each byte as a character below 256. */
  type Octet = c: char | c as int < 256 witness 'a'

  type Bytes = seq<Octet>

  predicate IsHexDigit(c: char) {
    '0' <= c <= '9' || 'a' <= c <= 'f' || 'A' <= c <= 'F'
  }

  /** The value of a hexadecimal digit, either case. */
  function HexValue(c: char): (n: nat)
    requires IsHexDigit(c)
    ensures n < 16
  {
    if '0' <= c <= '9' then c as int - '0' as int
    else if 'a' <= c <= 'f' then c as int - 'a' as int + 10
    else c as int - 'A' as int + 10
  }

  /** The upper-case hexadecimal digit of a value below 16. */
  function HexDigit(n: nat): (c: Octet)
    requires n < 16
    ensures IsHexDigit(c) && HexValue(c) == n
    ensures !('a' <= c <= 'z')
  {
    if n < 10 then ('0' as int + n) as char else ('A' as int + n - 10) as char
  }

  /** The byte written by two hexadecimal digits. */
  function HexByte(hi: char, lo: char): (b: Octet)
    requires IsHexDigit(hi) && IsHexDigit(lo)
  {
    (HexValue(hi) * 16 + HexValue(lo)) as char
  }

  lemma {:induction false} HexByteOfDigits(b: Octet)
    ensures HexByte(HexDigit(b as int / 16), HexDigit(b as int % 16)) == b
  {
  }

  /**
   * Every field between separators, empty ones included: the split that
   * Join undoes.
   */
  function Split<T(==)>(s: seq<T>, sep: T): (parts: seq<seq<T>>)
    ensures |parts| >= 1
    ensures forall i :: 0 <= i < |parts| ==> sep !in parts[i]
  {
    if s == [] then [[]]
    else
      var rest := Split(s[1..], sep);
      if s[0] == sep then [[]] + rest
      else [[s[0]] + rest[0]] + rest[1..]
  }

  /** The parts, with one separator between each two of them (Ruby's Array#join). */
  function Join<T>(parts: seq<seq<T>>, sep: T): seq<T>
  {
    if parts == [] then []
    else if |parts| == 1 then parts[0]
    else parts[0] + [sep] + Join(parts[1..], sep)
  }

  /** The list without its trailing empty elements. */
  function DropTrailingEmpty<T>(parts: seq<seq<T>>): (r: seq<seq<T>>)
    ensures |r| <= |parts| && r == parts[..|r|]
    ensures r == [] || r[|r| - 1] != []
    ensures forall i :: |r| <= i < |parts| ==> parts[i] == []
  {
    if parts == [] || parts[|parts| - 1] != [] then parts
    else DropTrailingEmpty(parts[..|parts| - 1])
  }

  /**
   * Ruby's String#split with a one-character string separator other than a
   * space (a space makes Ruby split awk-style, which this does not model) and
   * no limit: all fields, except that trailing empty fields are removed.
   */
  function RubySplit<T(==)>(s: seq<T>, sep: T): seq<seq<T>>
  {
    DropTrailingEmpty(Split(s, sep))
  }

  /** Splitting and joining again gives back the string. */
  lemma {:induction false} JoinSplit<T>(s: seq<T>, sep: T)
    ensures Join(Split(s, sep), sep) == s
  {
    if s != [] {
      var rest := Split(s[1..], sep);
      JoinSplit(s[1..], sep);
      if s[0] == sep {
        assert Split(s, sep) == [[]] + rest;
        assert ([[]] + rest)[1..] == rest;
      } else {
        var parts := Split(s, sep);
        assert parts == [[s[0]] + rest[0]] + rest[1..];
        if |rest| == 1 {
          assert Join(parts, sep) == [s[0]] + rest[0];
        } else {
          assert parts[1..] == rest[1..];
          assert Join(parts, sep) == [s[0]] + (rest[0] + [sep] + Join(rest[1..], sep));
        }
        assert s == [s[0]] + s[1..];
      }
    }
  }

  /** Splitting a field free of separators, followed by more text, starts with that field. */
  lemma {:induction false} SplitPrefix<T>(p: seq<T>, t: seq<T>, sep: T)
    requires sep !in p
    ensures Split(p + t, sep) == [p + Split(t, sep)[0]] + Split(t, sep)[1..]
  {
    if p != [] {
      SplitPrefix(p[1..], t, sep);
      assert (p + t)[1..] == p[1..] + t;
      assert (p + t)[0] == p[0];
      assert [p[0]] + (p[1..] + Split(t, sep)[0]) == p + Split(t, sep)[0];
    } else {
      assert p + t == t;
      assert p + Split(t, sep)[0] == Split(t, sep)[0];
      assert [Split(t, sep)[0]] + Split(t, sep)[1..] == Split(t, sep);
    }
  }

  /** Joining fields free of separators and splitting again gives back the fields. */
  lemma {:induction false} SplitJoin<T>(parts: seq<seq<T>>, sep: T)
    requires |parts| >= 1
    requires forall i :: 0 <= i < |parts| ==> sep !in parts[i]
    ensures Split(Join(parts, sep), sep) == parts
  {
    if |parts| == 1 {
      SplitPrefix(parts[0], [], sep);
      assert parts[0] + [] == parts[0];
    } else {
      var tail := Join(parts[1..], sep);
      SplitJoin(parts[1..], sep);
      assert Join(parts, sep) == parts[0] + ([sep] + tail);
      SplitPrefix(parts[0], [sep] + tail, sep);
      assert ([sep] + tail)[1..] == tail;
      var after := Split([sep] + tail, sep);
      assert after == [[]] + parts[1..];
      assert after[0] == [] && after[1..] == parts[1..];
      assert parts[0] + after[0] == parts[0];
      assert parts == [parts[0]] + parts[1..];
    }
  }

  /** Ruby's split undoes a join whose last field is non-empty. */
  lemma {:induction false} RubySplitJoin<T>(parts: seq<seq<T>>, sep: T)
    requires |parts| >= 1 && parts[|parts| - 1] != []
    requires forall i :: 0 <= i < |parts| ==> sep !in parts[i]
    ensures RubySplit(Join(parts, sep), sep) == parts
  {
    assert Split(Join(parts, sep), sep) == parts by { SplitJoin(parts, sep); }
  }

  /** Every field of the split is empty exactly when the string is made of separators only. */
  lemma {:induction false} SplitAllEmpty<T>(s: seq<T>, sep: T)
    ensures (forall i :: 0 <= i < |Split(s, sep)| ==> Split(s, sep)[i] == []) <==>
            (forall i :: 0 <= i < |s| ==> s[i] == sep)
  {
    if s != [] {
      SplitAllEmpty(s[1..], sep);
      var rest := Split(s[1..], sep);
      if s[0] == sep {
        assert Split(s, sep) == [[]] + rest;
        assert forall i :: 0 <= i < |rest| ==> rest[i] == Split(s, sep)[i + 1];
        assert forall i :: 1 <= i < |s| ==> s[i] == s[1..][i - 1];
      } else {
        assert Split(s, sep)[0] != [];
      }
    }
  }

  /** The string occurs in the text starting at position i. */
  ghost predicate OccursAt<T>(text: seq<T>, t: seq<T>, i: int) {
    0 <= i <= |text| - |t| && text[i..i + |t|] == t
  }

  /** The string occurs as a contiguous piece of the text (the reference definition). */
  ghost predicate Contains<T>(text: seq<T>, t: seq<T>) {
    exists i :: OccursAt(text, t, i)
  }

  /** Ruby's String#include?, scanning the text from the left. */
  function Includes<T(==)>(text: seq<T>, t: seq<T>): (b: bool)
    ensures b <==> Contains(text, t)
  {
    if |t| > |text| then false
    else if text[..|t|] == t then assert OccursAt(text, t, 0); true
    else
      var b := Includes(text[1..], t);
      assert Contains(text[1..], t) ==> Contains(text, t) by {
        if Contains(text[1..], t) {
          var i :| OccursAt(text[1..], t, i);
          assert text[i + 1..i + 1 + |t|] == t;
          assert OccursAt(text, t, i + 1);
        }
      }
      assert Contains(text, t) ==> Contains(text[1..], t) by {
        if Contains(text, t) {
          var i :| OccursAt(text, t, i);
          assert i != 0;
          assert text[1..][i - 1..i - 1 + |t|] == t;
          assert OccursAt(text[1..], t, i - 1);
        }
      }
      b
  }
}
