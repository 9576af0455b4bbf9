/** The query-string codec build_utm_url uses: parse_qsl(q,
    keep_blank_values=True) to read the existing query and
    urlencode(..., quote_via=quote_plus) to write the merged one, in a
    simplified form-encoding: a space is written '+', every other ASCII
    character outside letters, digits and "_.-~" is written %XX, and other
    characters are written as they are. */
module QueryString {
  import opened Seqs
  import opened Text
  import opened OrderedDict

  predicate IsAsciiLetterOrDigit(c: char)
  {
    'a' <= c <= 'z' || 'A' <= c <= 'Z' || '0' <= c <= '9'
  }

  /** Characters quote_plus leaves as they are. */
  predicate IsUnreserved(c: char)
  {
    IsAsciiLetterOrDigit(c) || c == '_' || c == '.' || c == '-' || c == '~'
  }

  predicate IsHexDigit(c: char)
  {
    '0' <= c <= '9' || 'a' <= c <= 'f' || 'A' <= c <= 'F'
  }

  function HexValue(c: char): (n: nat)
    requires IsHexDigit(c)
    ensures n < 16
  {
    if '0' <= c <= '9' then c as int - '0' as int
    else if 'a' <= c <= 'f' then c as int - 'a' as int + 10
    else c as int - 'A' as int + 10
  }

  function HexDigit(n: nat): (c: char)
    requires n < 16
    ensures IsHexDigit(c) && HexValue(c) == n
  {
    if n < 10 then ('0' as int + n) as char else ('A' as int + n - 10) as char
  }

  /** How quote_plus writes one character. */
  function QuoteChar(c: char): string
  {
    if IsUnreserved(c) then [c]
    else if c == ' ' then "+"
    else if (c as int) < 128 then ['%', HexDigit(c as int / 16), HexDigit(c as int % 16)]
    else [c]
  }

  /** quote_plus(s): the written form never holds the separators '&', '='
      or '#', and holds '+' only where s has a space. */
  function QuotePlus(s: string): (r: string)
    ensures '&' !in r && '=' !in r && '#' !in r
    ensures ' ' !in s ==> '+' !in r
  {
    if s == [] then [] else QuoteChar(s[0]) + QuotePlus(s[1..])
  }

  /** A string of unreserved characters and spaces is written as itself,
      with each space turned into '+'. */
  lemma {:induction false} QuotePlusOfPlain(s: string)
    requires forall c :: c in s ==> IsUnreserved(c) || c == ' '
    ensures QuotePlus(s) == Replace(s, ' ', '+')
  {
    if s != [] {
      var c, rest := s[0], s[1..];
      assert QuotePlus(rest) == Replace(rest, ' ', '+') by {
        assert forall x :: x in rest ==> x in s;
        QuotePlusOfPlain(rest);
      }
      assert QuoteChar(c) == Replace([c], ' ', '+') by {
        assert c in s;
      }
      assert Replace(s, ' ', '+') == Replace([c], ' ', '+') + Replace(rest, ' ', '+') by {
        assert s == [c] + rest;
        ReplaceConcat([c], rest, ' ', '+');
      }
    }
  }

  /** unquote(s): %XX with two hex digits stands for the character XX; any
      other '%' stands for itself. */
  function Unquote(s: string): (r: string)
  {
    if s == [] then []
    else if |s| >= 3 && s[0] == '%' && IsHexDigit(s[1]) && IsHexDigit(s[2]) then
      [(HexValue(s[1]) * 16 + HexValue(s[2])) as char] + Unquote(s[3..])
    else [s[0]] + Unquote(s[1..])
  }

  /** How parse_qsl decodes a name or a value: '+' becomes a space, then
      %XX escapes are decoded. */
  function UnquotePlus(s: string): string
  {
    Unquote(Replace(s, '+', ' '))
  }

  /** str.split(sep): the pieces of s between the occurrences of sep. */
  function Split(s: string, sep: char): (r: seq<string>)
    ensures |r| >= 1
    ensures sep !in s ==> r == [s]
    decreases |s|
  {
    var i := IndexOf(s, sep);
    if i == |s| then [s] else [s[..i]] + Split(s[i + 1..], sep)
  }

  /** One `name=value` piece; a piece without '=' has the blank value. */
  function DecodePiece(piece: string): Pair
  {
    var i := IndexOf(piece, '=');
    if i == |piece| then (UnquotePlus(piece), UnquotePlus(""))
    else (UnquotePlus(piece[..i]), UnquotePlus(piece[i + 1..]))
  }

  /** The decoded non-empty pieces, in order. */
  function DecodePieces(pieces: seq<string>): (r: seq<Pair>)
    ensures |r| <= |pieces|
    ensures "" !in pieces ==> |r| == |pieces|
  {
    if pieces == [] then []
    else (if pieces[0] == "" then [] else [DecodePiece(pieces[0])]) + DecodePieces(pieces[1..])
  }

  /** parse_qsl(q, keep_blank_values=True): the (name, value) items of q in
      order, repeated names and blank values included, empty pieces skipped. */
  function DecodeQuery(q: string): (r: seq<Pair>)
    ensures q == "" ==> r == []
    ensures q != "" && '&' !in q ==> r == [DecodePiece(q)]
    ensures |r| <= |Split(q, '&')|
  {
    DecodePieces(Split(q, '&'))
  }

  function EncodePair(p: Pair): string
  {
    QuotePlus(p.0) + "=" + QuotePlus(p.1)
  }

  /** urlencode(items, quote_via=quote_plus): `name=value` pieces joined with
      '&'; the query never holds '#'. */
  function EncodeQuery(ps: seq<Pair>): (q: string)
    ensures '#' !in q
    ensures q == [] <==> ps == []
  {
    if ps == [] then []
    else if |ps| == 1 then EncodePair(ps[0])
    else EncodePair(ps[0]) + "&" + EncodeQuery(ps[1..])
  }

  lemma {:induction false} UnquoteQuoted(s: string)
    ensures UnquotePlus(QuotePlus(s)) == s
  {
    if s != [] {
      var c := s[0];
      var q := QuoteChar(c);
      ReplaceConcat(q, QuotePlus(s[1..]), '+', ' ');
      UnquoteQuoted(s[1..]);
      var rest := Replace(QuotePlus(s[1..]), '+', ' ');
      if IsUnreserved(c) || c as int >= 128 {
        assert Replace(q, '+', ' ') == [c];
        assert ([c] + rest)[1..] == rest;
      } else if c == ' ' {
        assert Replace(q, '+', ' ') == [' '];
        assert ([' '] + rest)[1..] == rest;
      } else {
        var hi, lo := HexDigit(c as int / 16), HexDigit(c as int % 16);
        assert Replace(q, '+', ' ') == ['%', hi, lo];
        assert (['%', hi, lo] + rest)[3..] == rest;
        assert (HexValue(hi) * 16 + HexValue(lo)) as char == c;
      }
    }
  }

  lemma SplitJoined(a: string, b: string, sep: char)
    requires sep !in a
    ensures Split(a + [sep] + b, sep) == [a] + Split(b, sep)
  {
    IndexOfSeparator(a, sep, b);
  }

  lemma DecodeEncodedPair(p: Pair)
    ensures DecodePiece(EncodePair(p)) == p
  {
    var k, v := QuotePlus(p.0), QuotePlus(p.1);
    IndexOfSeparator(k, '=', v);
    UnquoteQuoted(p.0);
    UnquoteQuoted(p.1);
  }

  /** Reading back what urlencode wrote gives the items written, in order. */
  lemma {:induction false} DecodeEncodeQuery(ps: seq<Pair>)
    ensures DecodeQuery(EncodeQuery(ps)) == ps
  {
    if ps == [] {
      assert Split("", '&') == [""];
    } else {
      var e := EncodePair(ps[0]);
      DecodeEncodedPair(ps[0]);
      assert e != "";
      if |ps| == 1 {
        assert Split(e, '&') == [e];
        assert DecodePieces([e]) == [DecodePiece(e)] + DecodePieces([]);
      } else {
        SplitJoined(e, EncodeQuery(ps[1..]), '&');
        assert e + "&" + EncodeQuery(ps[1..]) == e + ['&'] + EncodeQuery(ps[1..]);
        DecodeEncodeQuery(ps[1..]);
        var pieces := [e] + Split(EncodeQuery(ps[1..]), '&');
        assert pieces[1..] == Split(EncodeQuery(ps[1..]), '&');
      }
    }
  }
}
