/**
 * The two codecs the OAuth code uses from Ruby's URI library:
 * URI.encode_www_form (application/x-www-form-urlencoded serialisation of a
 * hash, used for the authorize URL's query) and URI.unescape (percent
 * decoding of section 2.1 of RFC 3986, used on the authorization code).
 * DecodeForm is the model's own inverse of URI.encode_www_form; it states
 * that the serialisation loses nothing.
 */
module FormEncoding {
  import opened Wrappers
  import opened Bytes
  import opened RubyHash

  /** The bytes URI.encode_www_form_component copies unchanged: `*`, `-`, `.`, digits, `_` and ASCII letters. */
  predicate Unreserved(c: char) {
    c == '*' || c == '-' || c == '.' || '0' <= c <= '9' || 'A' <= c <= 'Z' || c == '_' || 'a' <= c <= 'z'
  }

  /** One byte of URI.encode_www_form_component: kept, a space as `+`, anything else as `%XX` in upper case. */
  function EncodeByte(c: Octet): Bytes {
    if Unreserved(c) then [c]
    else if c == ' ' then ['+']
    else ['%', HexDigit(c as int / 16), HexDigit(c as int % 16)]
  }

  /** URI.encode_www_form_component, byte by byte. */
  function EncodeComponent(s: Bytes): Bytes {
    if s == [] then [] else EncodeByte(s[0]) + EncodeComponent(s[1..])
  }

  /** A form field as text: a name, and a value unless the hash held nil. */
  type Field = (Bytes, Option<Bytes>)

  /** The text URI.encode_www_form writes for a hash value (to_s), or None for nil. */
  function ValueText(v: Value): Option<Bytes> {
    match v
    case Nil => None
    case Bool(b) => Some(if b then "true" else "false")
    case Str(s) => Some(s)
  }

  /** The fields of a hash as URI.encode_www_form sees them: each key by its name, in order. */
  function Fields(h: Entries): seq<Field> {
    seq(|h|, i requires 0 <= i < |h| => (h[i].0.name, ValueText(h[i].1)))
  }

  /** `name` for a nil value, `name=value` otherwise, both encoded. */
  function EncodeField(f: Field): Bytes {
    match f.1
    case None => EncodeComponent(f.0)
    case Some(v) => EncodeComponent(f.0) + ['='] + EncodeComponent(v)
  }

  function EncodeFields(fs: seq<Field>): seq<Bytes> {
    seq(|fs|, i requires 0 <= i < |fs| => EncodeField(fs[i]))
  }

  /** URI.encode_www_form: the encoded fields joined with `&`. */
  function EncodeWwwForm(h: Entries): Bytes {
    Join<Octet>(EncodeFields(Fields(h)), '&')
  }

  function Prepend(c: Octet, r: Option<Bytes>): Option<Bytes> {
    match r
    case Some(t) => Some([c] + t)
    case None => None
  }

  /** The inverse of EncodeComponent: `+` is a space, `%XX` a byte, and a `%` without two hex digits is malformed. */
  function DecodeComponent(s: Bytes): Option<Bytes> {
    if s == [] then Some([])
    else if s[0] == '%' then
      if |s| >= 3 && IsHexDigit(s[1]) && IsHexDigit(s[2]) then Prepend(HexByte(s[1], s[2]), DecodeComponent(s[3..]))
      else None
    else Prepend(if s[0] == '+' then ' ' else s[0], DecodeComponent(s[1..]))
  }

  /** A field: the name before the first `=`, and the value after it when there is one. */
  function DecodeField(piece: Bytes): Option<Field> {
    var halves := Split<Octet>(piece, '=');
    match DecodeComponent(halves[0])
    case None => None
    case Some(name) =>
      if |halves| == 1 then Some((name, None))
      else match DecodeComponent(Join<Octet>(halves[1..], '='))
        case None => None
        case Some(v) => Some((name, Some(v)))
  }

  function DecodeFields(pieces: seq<Bytes>): Option<seq<Field>> {
    if pieces == [] then Some([])
    else match (DecodeField(pieces[0]), DecodeFields(pieces[1..]))
      case (Some(f), Some(fs)) => Some([f] + fs)
      case _ => None
  }

  /** The fields of an `&`-separated form-encoded text. */
  function DecodeForm(q: Bytes): Option<seq<Field>> {
    DecodeFields(Split<Octet>(q, '&'))
  }

  /** URI.unescape: every `%` followed by two hex digits (either case) becomes that byte; everything else, `+` included, stays. */
  function Unescape(s: Bytes): Bytes {
    if s == [] then []
    else if |s| >= 3 && s[0] == '%' && IsHexDigit(s[1]) && IsHexDigit(s[2]) then [HexByte(s[1], s[2])] + Unescape(s[3..])
    else [s[0]] + Unescape(s[1..])
  }

  /** The bytes an encoded component can hold. */
  predicate ComponentByte(c: char) {
    Unreserved(c) || c == '+' || c == '%'
  }

  /** An encoded component holds only unreserved bytes, `+` and `%`: never `=` or `&`. */
  lemma {:induction false} EncodeComponentBytes(s: Bytes)
    ensures forall i :: 0 <= i < |EncodeComponent(s)| ==> ComponentByte(EncodeComponent(s)[i])
  {
    if s != [] {
      EncodeComponentBytes(s[1..]);
      var e, r := EncodeByte(s[0]), EncodeComponent(s[1..]);
      assert EncodeComponent(s) == e + r;
      assert forall i :: 0 <= i < |e| ==> ComponentByte(e[i]);
    }
  }

  lemma {:induction false} EncodedHasNo(s: Bytes, c: Octet)
    requires !ComponentByte(c)
    ensures c !in EncodeComponent(s)
  {
    EncodeComponentBytes(s);
  }

  /** Decoding one encoded byte followed by more text gives the byte followed by the decoded rest. */
  lemma {:induction false} DecodeEncodedByte(c: Octet, rest: Bytes)
    ensures DecodeComponent(EncodeByte(c) + rest) == Prepend(c, DecodeComponent(rest))
  {
    var e := EncodeByte(c);
    if Unreserved(c) {
      assert (e + rest)[1..] == rest;
    } else if c == ' ' {
      assert (e + rest)[1..] == rest;
    } else {
      assert (e + rest)[3..] == rest;
      HexByteOfDigits(c);
    }
  }

  /** URI.encode_www_form_component loses nothing: decoding gives back the bytes. */
  lemma {:induction false} DecodeEncodeComponent(s: Bytes)
    ensures DecodeComponent(EncodeComponent(s)) == Some(s)
  {
    if s != [] {
      DecodeEncodeComponent(s[1..]);
      DecodeEncodedByte(s[0], EncodeComponent(s[1..]));
      assert [s[0]] + s[1..] == s;
    }
  }

  /** A field encoded on its own decodes back to itself. */
  lemma {:induction false} DecodeEncodeField(f: Field)
    ensures '&' !in EncodeField(f)
    ensures DecodeField(EncodeField(f)) == Some(f)
  {
    var name := EncodeComponent(f.0);
    EncodedHasNo(f.0, '=');
    EncodedHasNo(f.0, '&');
    DecodeEncodeComponent(f.0);
    match f.1
    case None =>
      assert Join<Octet>([name], '=') == name;
      SplitJoin<Octet>([name], '=');
    case Some(v) =>
      var value := EncodeComponent(v);
      EncodedHasNo(v, '=');
      EncodedHasNo(v, '&');
      DecodeEncodeComponent(v);
      assert Join<Octet>([name, value], '=') == name + ['='] + value;
      SplitJoin<Octet>([name, value], '=');
      assert Split<Octet>(EncodeField(f), '=')[1..] == [value];
      assert Join<Octet>([value], '=') == value;
  }

  lemma {:induction false} DecodeEncodeFields(fs: seq<Field>)
    ensures forall i :: 0 <= i < |fs| ==> '&' !in EncodeFields(fs)[i]
    ensures DecodeFields(EncodeFields(fs)) == Some(fs)
  {
    forall i | 0 <= i < |fs| ensures '&' !in EncodeFields(fs)[i] {
      DecodeEncodeField(fs[i]);
    }
    if fs != [] {
      DecodeEncodeField(fs[0]);
      DecodeEncodeFields(fs[1..]);
      assert EncodeFields(fs)[1..] == EncodeFields(fs[1..]);
      assert [fs[0]] + fs[1..] == fs;
    }
  }

  /**
   * URI.encode_www_form loses nothing for a hash with at least one entry:
   * the query decodes back to the names and texts of its entries, in order.
   * (With no entries the query is empty, as it is for one nameless nil entry.)
   */
  lemma {:induction false} DecodeEncodeWwwForm(h: Entries)
    requires h != []
    ensures DecodeForm(EncodeWwwForm(h)) == Some(Fields(h))
  {
    var fs := Fields(h);
    DecodeEncodeFields(fs);
    SplitJoin<Octet>(EncodeFields(fs), '&');
  }

  /** Two non-empty hashes serialise to the same query only when their fields' names and texts agree. */
  lemma {:induction false} EncodeWwwFormInjective(g: Entries, h: Entries)
    requires g != [] && h != []
    requires EncodeWwwForm(g) == EncodeWwwForm(h)
    ensures Fields(g) == Fields(h)
  {
    DecodeEncodeWwwForm(g);
    DecodeEncodeWwwForm(h);
  }

  /** The query holds only unreserved bytes, `+`, `%`, `=` and `&`, which URI#query= stores unchanged. */
  lemma {:induction false} EncodeWwwFormBytes(h: Entries)
    ensures forall i :: 0 <= i < |EncodeWwwForm(h)| ==>
      ComponentByte(EncodeWwwForm(h)[i]) || EncodeWwwForm(h)[i] in "=&"
  {
    QueryBytes(EncodeFields(Fields(h)), Fields(h));
  }

  lemma {:induction false} QueryBytes(parts: seq<Bytes>, fs: seq<Field>)
    requires parts == EncodeFields(fs)
    ensures forall i :: 0 <= i < |Join<Octet>(parts, '&')| ==> ComponentByte(Join<Octet>(parts, '&')[i]) || Join<Octet>(parts, '&')[i] in "=&"
  {
    if parts != [] {
      var p := parts[0];
      assert p == EncodeField(fs[0]);
      EncodeComponentBytes(fs[0].0);
      if fs[0].1.Some? { EncodeComponentBytes(fs[0].1.value); }
      assert forall i :: 0 <= i < |p| ==> ComponentByte(p[i]) || p[i] in "=&";
      if |parts| > 1 {
        assert parts[1..] == EncodeFields(fs[1..]);
        QueryBytes(parts[1..], fs[1..]);
      }
    }
  }

  /** The query of a one-entry hash is that entry's field. */
  lemma {:induction false} EncodeWwwFormOne(k: Key, v: Value)
    ensures EncodeWwwForm([(k, v)]) == EncodeField((k.name, ValueText(v)))
  {
    assert Fields([(k, v)]) == [(k.name, ValueText(v))];
    assert EncodeFields(Fields([(k, v)])) == [EncodeField((k.name, ValueText(v)))];
  }

  /** The query of a longer hash is its first entry's field, `&`, and the query of the rest. */
  lemma {:induction false} EncodeWwwFormCons(k: Key, v: Value, rest: Entries)
    requires rest != []
    ensures EncodeWwwForm([(k, v)] + rest) == EncodeField((k.name, ValueText(v))) + ['&'] + EncodeWwwForm(rest)
  {
    var h := [(k, v)] + rest;
    var parts := EncodeFields(Fields(h));
    assert parts[0] == EncodeField((k.name, ValueText(v)));
    assert parts[1..] == EncodeFields(Fields(rest));
  }

  /** A text of unreserved bytes is its own form encoding. */
  lemma {:induction false} EncodeUnreserved(s: Bytes)
    requires forall i :: 0 <= i < |s| ==> Unreserved(s[i])
    ensures EncodeComponent(s) == s
  {
    if s != [] {
      EncodeUnreserved(s[1..]);
      assert [s[0]] + s[1..] == s;
    }
  }

  /** Only the empty text encodes to nothing. */
  lemma {:induction false} EncodeComponentNonEmpty(s: Bytes)
    requires s != []
    ensures EncodeComponent(s) != []
  {
    assert EncodeComponent(s) == EncodeByte(s[0]) + EncodeComponent(s[1..]);
  }

  /** URI.unescape changes nothing in a text without `%`. */
  lemma {:induction false} UnescapePlain(s: Bytes)
    requires '%' !in s
    ensures Unescape(s) == s
  {
    if s != [] {
      UnescapePlain(s[1..]);
      assert [s[0]] + s[1..] == s;
    }
  }

  /**
   * URI.unescape recovers a value that was form-encoded, provided the value
   * has no space (form encoding writes a space as `+`, which URI.unescape keeps).
   */
  lemma {:induction false} UnescapeEncoded(s: Bytes)
    requires ' ' !in s
    ensures Unescape(EncodeComponent(s)) == s
  {
    if s != [] {
      var c, rest := s[0], EncodeComponent(s[1..]);
      UnescapeEncoded(s[1..]);
      var e := EncodeByte(c);
      if Unreserved(c) {
        assert (e + rest)[1..] == rest;
      } else {
        assert (e + rest)[3..] == rest;
        HexByteOfDigits(c);
      }
      assert [s[0]] + s[1..] == s;
    }
  }
}
