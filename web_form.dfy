/**
 * The text helpers of the configuration web page: escaping values into
 * HTML, percent-decoding form values (`+` and `%XY` as in section 5.1 of the
 * WHATWG URL Standard), splitting a submitted form body into a key-value map,
 * and reading a checkbox value.
 *
 * The form parser is simpler than section 5.1: an empty piece between two
 * `&` is stored under the empty key instead of being skipped, and a name
 * keeps only its last value instead of a list of all pairs.
 *
 * Strings are sequences of `char`; a C++ `char` is one byte, so text the
 * browser sends is a sequence of characters below 256.
 */
module WebForm {
  import opened Common
  import KeyDerivation

  // ---------------------------------------------------------------- HTML

  /** The markup characters that `html_escape` replaces. */
  predicate IsMarkup(c: char)
  {
    c == '&' || c == '<' || c == '>' || c == '"' || c == '\''
  }

  /** The replacement of one character: an entity for markup, the character itself otherwise. */
  function EscapeChar(c: char): (r: string)
    ensures |r| >= 1 && r[0] == (if IsMarkup(c) then '&' else c)
    ensures !IsMarkup(c) <==> r == [c]
  {
    match c
    case '&' => "&amp;"
    case '<' => "&lt;"
    case '>' => "&gt;"
    case '"' => "&quot;"
    case '\'' => "&#39;"
    case _ => [c]
  }

  /** The escaped text, one replacement per input character, left to right. */
  function Escaped(s: string): string
  {
    if s == [] then [] else EscapeChar(s[0]) + Escaped(s[1..])
  }

  lemma {:induction false} EscapedAppend(s: string, c: char)
    ensures Escaped(s + [c]) == Escaped(s) + EscapeChar(c)
  {
    if s != [] {
      assert (s + [c])[1..] == s[1..] + [c];
      EscapedAppend(s[1..], c);
    }
  }

  /** `html_escape`: the loop appends the replacement of each character. */
  method HtmlEscape(input: string) returns (output: string)
    ensures output == Escaped(input)
  {
    output := [];
    var i := 0;
    while i < |input|
      invariant i <= |input|
      invariant output == Escaped(input[..i])
    {
      var ch := input[i];
      assert input[..i + 1] == input[..i] + [ch];
      EscapedAppend(input[..i], ch);
      if ch == '&' {
        output := output + "&amp;";
      } else if ch == '<' {
        output := output + "&lt;";
      } else if ch == '>' {
        output := output + "&gt;";
      } else if ch == '"' {
        output := output + "&quot;";
      } else if ch == '\'' {
        output := output + "&#39;";
      } else {
        output := output + [ch];
      }
      i := i + 1;
    }
    assert input[..i] == input;
  }

  /** Text that can be placed in an attribute value or element content without opening markup. */
  predicate Inert(t: string)
  {
    forall i :: 0 <= i < |t| ==> t[i] != '<' && t[i] != '>' && t[i] != '"' && t[i] != '\''
  }

  /** Escaped text never contains a raw `<`, `>`, `"` or `'`. */
  lemma {:induction false} EscapedIsInert(s: string)
    ensures Inert(Escaped(s))
  {
    if s != [] {
      EscapedIsInert(s[1..]);
      var e, rest := EscapeChar(s[0]), Escaped(s[1..]);
      assert Inert(e);
      forall i | 0 <= i < |e + rest| ensures (e + rest)[i] != '<' && (e + rest)[i] != '>'
        && (e + rest)[i] != '"' && (e + rest)[i] != '\''
      {
        if i >= |e| {
          assert (e + rest)[i] == rest[i - |e|];
        }
      }
    }
  }

  /** The browser's reading of the five entities `html_escape` produces. */
  function Unescaped(t: string): string
  {
    if t == [] then []
    else if "&amp;" <= t then ['&'] + Unescaped(t[5..])
    else if "&lt;" <= t then ['<'] + Unescaped(t[4..])
    else if "&gt;" <= t then ['>'] + Unescaped(t[4..])
    else if "&quot;" <= t then ['"'] + Unescaped(t[6..])
    else if "&#39;" <= t then ['\''] + Unescaped(t[5..])
    else [t[0]] + Unescaped(t[1..])
  }

  lemma UnescapeOne(c: char, rest: string)
    ensures Unescaped(EscapeChar(c) + rest) == [c] + Unescaped(rest)
  {
    var e := EscapeChar(c);
    var t := e + rest;
    assert t[..|e|] == e && t[|e|..] == rest;
    if !IsMarkup(c) {
      assert t[0] == c && t[1..] == rest;
      assert !("&amp;" <= t) && !("&lt;" <= t) && !("&gt;" <= t) && !("&quot;" <= t) && !("&#39;" <= t);
    } else if c == '&' {
      assert "&amp;" <= t;
    } else if c == '<' {
      assert t[1] == 'l' && "&lt;" <= t;
    } else if c == '>' {
      assert t[1] == 'g' && "&gt;" <= t;
    } else if c == '"' {
      assert t[1] == 'q' && "&quot;" <= t;
    } else {
      assert t[1] == '#' && "&#39;" <= t;
    }
  }

  /** Escaping loses nothing: reading the escaped text back gives the original text. */
  lemma {:induction false} UnescapeEscaped(s: string)
    ensures Unescaped(Escaped(s)) == s
  {
    if s != [] {
      UnescapeOne(s[0], Escaped(s[1..]));
      UnescapeEscaped(s[1..]);
    }
  }

  // ------------------------------------------------------------ hex digits

  /** `std::tolower` in the C locale: only `A`-`Z` change. */
  function ToLower(c: char): char
  {
    if 'A' <= c <= 'Z' then (c as int + 32) as char else c
  }

  /** `hex_to_int`: the value of a hex digit of either case, or -1. */
  function HexToInt(ch: char): (r: int)
    ensures -1 <= r < 16
    ensures r == -1 <==> !('0' <= ch <= '9' || 'a' <= ch <= 'f' || 'A' <= ch <= 'F')
  {
    if '0' <= ch <= '9' then ch as int - '0' as int
    else
      var lower := ToLower(ch);
      if 'a' <= lower <= 'f' then 10 + (lower as int - 'a' as int) else -1
  }

  /** The uppercase hex digit of `d`, the form RFC 3986 recommends for percent-encoding. */
  function UpperHexDigit(d: nat): char
    requires d < 16
  {
    if d < 10 then ('0' as int + d) as char else ('A' as int + d - 10) as char
  }

  /**
   * `hex_to_int` reads back both digit forms, and a character it accepts is
   * one of the two forms of its value.
   */
  lemma HexToIntDigits(d: nat, c: char)
    requires d < 16
    ensures HexToInt(KeyDerivation.HexDigit(d)) == d && HexToInt(UpperHexDigit(d)) == d
    ensures HexToInt(c) == d ==> c == KeyDerivation.HexDigit(d) || c == UpperHexDigit(d)
  {
  }

  // --------------------------------------------------------- URL decoding

  /** A `%` at the front of `s` followed by two hex digits. */
  predicate EscapeAt(s: string)
  {
    |s| > 2 && s[0] == '%' && HexToInt(s[1]) >= 0 && HexToInt(s[2]) >= 0
  }

  /** The byte a `%XY` escape stands for: `(high << 4) | low`. */
  function EscapedByte(s: string): (c: char)
    requires EscapeAt(s)
    ensures c as int < 256
  {
    (HexToInt(s[1]) * 16 + HexToInt(s[2])) as char
  }

  /**
   * `url_decode`: `+` is a space, `%XY` with two hex digits is that byte,
   * and every other character, a stray `%` included, stands for itself.
   */
  function Decoded(s: string): string
  {
    if s == [] then []
    else if s[0] == '+' then [' '] + Decoded(s[1..])
    else if EscapeAt(s) then [EscapedByte(s)] + Decoded(s[3..])
    else [s[0]] + Decoded(s[1..])
  }

  /** The decoded text is never longer than the text. */
  lemma {:induction false} DecodedNotLonger(s: string)
    ensures |Decoded(s)| <= |s|
  {
    if s != [] {
      if s[0] != '+' && EscapeAt(s) {
        DecodedNotLonger(s[3..]);
      } else {
        DecodedNotLonger(s[1..]);
      }
    }
  }

  /** Text without `+` or `%` is its own decoding. */
  lemma {:induction false} DecodedPlain(s: string)
    requires forall i :: 0 <= i < |s| ==> s[i] != '+' && s[i] != '%'
    ensures Decoded(s) == s
  {
    if s != [] {
      DecodedPlain(s[1..]);
    }
  }

  /** One step of decoding at position `index`, as the loop of `url_decode` takes it. */
  lemma DecodeAt(value: string, index: nat)
    requires index < |value|
    ensures Decoded(value[index..]) ==
      if value[index] == '+' then [' '] + Decoded(value[index + 1..])
      else if value[index] == '%' && index + 2 < |value|
        && HexToInt(value[index + 1]) >= 0 && HexToInt(value[index + 2]) >= 0
      then [(HexToInt(value[index + 1]) * 16 + HexToInt(value[index + 2])) as char] + Decoded(value[index + 3..])
      else [value[index]] + Decoded(value[index + 1..])
  {
    var rest := value[index..];
    assert rest[1..] == value[index + 1..];
    if |rest| > 2 {
      assert rest[3..] == value[index + 3..];
    }
  }

  /** The loop of `url_decode`; `index` skips the two digits of a decoded escape. */
  method UrlDecode(value: string) returns (out: string)
    ensures out == Decoded(value)
  {
    out := [];
    var index := 0;
    while index < |value|
      invariant index <= |value|
      invariant out + Decoded(value[index..]) == Decoded(value)
    {
      DecodeAt(value, index);
      if value[index] == '+' {
        assert (out + [' ']) + Decoded(value[index + 1..]) == out + ([' '] + Decoded(value[index + 1..]));
        out := out + [' '];
        index := index + 1;
        continue;
      }
      if value[index] == '%' && index + 2 < |value| {
        var high := HexToInt(value[index + 1]);
        var low := HexToInt(value[index + 2]);
        if high >= 0 && low >= 0 {
          var byte := (high * 16 + low) as char;
          assert (out + [byte]) + Decoded(value[index + 3..]) == out + ([byte] + Decoded(value[index + 3..]));
          out := out + [byte];
          index := index + 3;
          continue;
        }
      }
      assert (out + [value[index]]) + Decoded(value[index + 1..]) == out + ([value[index]] + Decoded(value[index + 1..]));
      out := out + [value[index]];
      index := index + 1;
    }
  }

  // --------------------------------------------------------- URL encoding

  /**
   * The bytes the `application/x-www-form-urlencoded` serializer (section 5.2
   * of the WHATWG URL Standard) sends as they are: ASCII letters and digits,
   * `*`, `-`, `.` and `_`.
   */
  predicate SentAsIs(c: char)
  {
    'a' <= c <= 'z' || 'A' <= c <= 'Z' || '0' <= c <= '9' || c == '*' || c == '-' || c == '.' || c == '_'
  }

  /** How a browser sends one byte of a form field: letters, digits and `*-._` as is, space as `+`, the rest as `%XY`. */
  function EncodeChar(c: char): (r: string)
    requires c as int < 256
    ensures '&' !in r && '=' !in r
  {
    if SentAsIs(c) then [c]
    else if c == ' ' then "+"
    else ['%', UpperHexDigit(c as int / 16), UpperHexDigit(c as int % 16)]
  }

  /** A byte string in which every character is below 256. */
  predicate Bytes(s: string)
  {
    forall i :: 0 <= i < |s| ==> s[i] as int < 256
  }

  function Encoded(s: string): (r: string)
    requires Bytes(s)
    ensures '&' !in r && '=' !in r
  {
    if s == [] then [] else EncodeChar(s[0]) + Encoded(s[1..])
  }

  lemma DecodeOne(c: char, rest: string)
    requires c as int < 256
    ensures Decoded(EncodeChar(c) + rest) == [c] + Decoded(rest)
  {
    var t := EncodeChar(c) + rest;
    if SentAsIs(c) || c == ' ' {
      assert t[0] != '%' && t[1..] == rest;
    } else {
      HexToIntDigits(c as int / 16, t[1]);
      HexToIntDigits(c as int % 16, t[2]);
      assert EscapeAt(t) && t[3..] == rest;
    }
  }

  /** Decoding undoes the browser's encoding of any byte string. */
  lemma {:induction false} DecodeEncoded(s: string)
    requires Bytes(s)
    ensures Decoded(Encoded(s)) == s
  {
    if s != [] {
      DecodeOne(s[0], Encoded(s[1..]));
      DecodeEncoded(s[1..]);
    }
  }

  // ------------------------------------------------------------- the form

  /** `s.find(c)`: the first position of `c`, or `|s|` for `npos`. */
  function IndexOf(s: string, c: char): (i: nat)
    ensures i <= |s| && (i < |s| ==> s[i] == c)
    ensures forall j :: 0 <= j < i ==> s[j] != c
  {
    if s == [] || s[0] == c then 0 else 1 + IndexOf(s[1..], c)
  }

  /**
   * The `&`-separated pieces of a body, as the loop of `parse_form_encoded`
   * visits them: an empty body has none, and a trailing `&` adds none.
   */
  function Pieces(body: string): seq<string>
    decreases |body|
  {
    if body == [] then []
    else
      var e := IndexOf(body, '&');
      [body[..e]] + (if e < |body| then Pieces(body[e + 1..]) else [])
  }

  /** The key of a piece: the decoded text before its first `=`, or all of it. */
  function KeyOf(piece: string): string
  {
    var eq := IndexOf(piece, '=');
    if eq < |piece| then Decoded(piece[..eq]) else Decoded(piece)
  }

  /** The value of a piece: the decoded text after its first `=`, or `""`. */
  function ValueOf(piece: string): string
  {
    var eq := IndexOf(piece, '=');
    if eq < |piece| then Decoded(piece[eq + 1..]) else ""
  }

  /** The map the pieces build when each is stored in turn, a later key overwriting an earlier one. */
  function FormOf(pieces: seq<string>): map<string, string>
  {
    if pieces == [] then map[]
    else
      var last := pieces[|pieces| - 1];
      FormOf(pieces[..|pieces| - 1])[KeyOf(last) := ValueOf(last)]
  }

  /** `parse_form_encoded` of a body. */
  function Form(body: string): map<string, string>
  {
    FormOf(Pieces(body))
  }

  /** Storing one more piece updates the map at that piece's key. */
  lemma FormOfSnoc(pieces: seq<string>, piece: string)
    ensures FormOf(pieces + [piece]) == FormOf(pieces)[KeyOf(piece) := ValueOf(piece)]
  {
    assert (pieces + [piece])[..|pieces|] == pieces;
  }

  /** The keys of the pieces, in order. */
  function KeysOf(pieces: seq<string>): (r: seq<string>)
    ensures |r| == |pieces| && forall i :: 0 <= i < |pieces| ==> r[i] == KeyOf(pieces[i])
  {
    if pieces == [] then [] else KeysOf(pieces[..|pieces| - 1]) + [KeyOf(pieces[|pieces| - 1])]
  }

  /** A key is in the map exactly when some piece carries it. */
  lemma {:induction false} FormOfKeys(pieces: seq<string>, k: string)
    ensures k in FormOf(pieces) <==> k in KeysOf(pieces)
  {
    if pieces != [] {
      FormOfKeys(pieces[..|pieces| - 1], k);
    }
  }

  /** The value of a key is the value of the last piece that carries it: a later field overwrites an earlier one. */
  lemma {:induction false} FormOfLastWins(pieces: seq<string>, k: string, i: nat)
    requires i < |pieces| && KeyOf(pieces[i]) == k
    requires forall j :: i < j < |pieces| ==> KeyOf(pieces[j]) != k
    ensures k in FormOf(pieces) && FormOf(pieces)[k] == ValueOf(pieces[i])
  {
    var n := |pieces| - 1;
    var front, last := pieces[..n], pieces[n];
    assert FormOf(pieces) == FormOf(front)[KeyOf(last) := ValueOf(last)];
    if i < n {
      assert front[i] == pieces[i];
      FormOfLastWins(front, k, i);
    }
  }

  /** The empty body gives the empty map. */
  lemma FormOfEmptyBody()
    ensures Form("") == map[]
  {
  }

  /** The text of one submitted field: `key=value`, both encoded. */
  function FieldText(field: (string, string)): (t: string)
    requires Bytes(field.0) && Bytes(field.1)
    ensures '&' !in t && t != []
  {
    Encoded(field.0) + "=" + Encoded(field.1)
  }

  /** The body a browser submits for a list of fields: the field texts joined by `&`. */
  function FormText(fields: seq<(string, string)>): string
    requires forall i :: 0 <= i < |fields| ==> Bytes(fields[i].0) && Bytes(fields[i].1)
  {
    if fields == [] then []
    else if |fields| == 1 then FieldText(fields[0])
    else FieldText(fields[0]) + "&" + FormText(fields[1..])
  }

  /** The fields as a map, a later field overwriting an earlier one of the same name. */
  function FieldMap(fields: seq<(string, string)>): map<string, string>
  {
    if fields == [] then map[]
    else FieldMap(fields[..|fields| - 1])[fields[|fields| - 1].0 := fields[|fields| - 1].1]
  }

  /** The piece of one encoded field reads back as that field. */
  lemma FieldPiece(k: string, v: string)
    requires Bytes(k) && Bytes(v)
    ensures KeyOf(FieldText((k, v))) == k
    ensures ValueOf(FieldText((k, v))) == v
  {
    var ek, ev := Encoded(k), Encoded(v);
    var piece := FieldText((k, v));
    assert piece[|ek|] == '=';
    assert forall j :: 0 <= j < |ek| ==> piece[j] == ek[j];
    IndexOfIs(piece, '=', |ek|);
    assert piece[..|ek|] == ek && piece[|ek| + 1..] == ev;
    DecodeEncoded(k);
    DecodeEncoded(v);
  }

  /** A non-empty piece without `&` is the only piece of itself. */
  lemma PiecesOne(piece: string)
    requires '&' !in piece && piece != []
    ensures Pieces(piece) == [piece]
  {
    IndexOfIs(piece, '&', |piece|);
    assert piece[..|piece|] == piece;
  }

  /** A piece without `&` followed by `&` is split off the front. */
  lemma PiecesCons(piece: string, tail: string)
    requires '&' !in piece
    ensures Pieces(piece + "&" + tail) == [piece] + Pieces(tail)
  {
    var body := piece + "&" + tail;
    assert forall j :: 0 <= j < |piece| ==> body[j] == piece[j];
    IndexOfIs(body, '&', |piece|);
    assert body[..|piece|] == piece && body[|piece| + 1..] == tail;
  }

  /** The pieces of a submitted body are the field texts. */
  lemma {:induction false} PiecesOfFormText(fields: seq<(string, string)>)
    requires forall i :: 0 <= i < |fields| ==> Bytes(fields[i].0) && Bytes(fields[i].1)
    ensures |Pieces(FormText(fields))| == |fields|
    ensures forall i :: 0 <= i < |fields| ==> Pieces(FormText(fields))[i] == FieldText(fields[i])
  {
    if |fields| == 1 {
      PiecesOne(FieldText(fields[0]));
    } else if |fields| > 1 {
      PiecesCons(FieldText(fields[0]), FormText(fields[1..]));
      PiecesOfFormText(fields[1..]);
    }
  }

  /** Folding the pieces of the first `n` fields gives the map of those fields. */
  lemma {:induction false} FormOfFields(fields: seq<(string, string)>, pieces: seq<string>, n: nat)
    requires forall i :: 0 <= i < |fields| ==> Bytes(fields[i].0) && Bytes(fields[i].1)
    requires |pieces| == |fields| && n <= |fields|
    requires forall i :: 0 <= i < |fields| ==> pieces[i] == FieldText(fields[i])
    ensures FormOf(pieces[..n]) == FieldMap(fields[..n])
  {
    if n > 0 {
      FormOfFields(fields, pieces, n - 1);
      assert pieces[..n][..n - 1] == pieces[..n - 1];
      assert fields[..n][..n - 1] == fields[..n - 1];
      FieldPiece(fields[n - 1].0, fields[n - 1].1);
    }
  }

  /** Parsing the body a browser submits gives back exactly the submitted fields. */
  lemma ParseFormText(fields: seq<(string, string)>)
    requires forall i :: 0 <= i < |fields| ==> Bytes(fields[i].0) && Bytes(fields[i].1)
    ensures Form(FormText(fields)) == FieldMap(fields)
  {
    var pieces := Pieces(FormText(fields));
    PiecesOfFormText(fields);
    FormOfFields(fields, pieces, |fields|);
    assert pieces[..|fields|] == pieces && fields[..|fields|] == fields;
  }

  /** `std::string::find(c, from)`, `|s|` standing for `npos`. */
  method Find(s: string, c: char, from: nat) returns (i: nat)
    requires from <= |s|
    ensures i == from + IndexOf(s[from..], c)
  {
    i := from;
    while i < |s| && s[i] != c
      invariant from <= i <= |s|
      invariant forall j :: from <= j < i ==> s[j] != c
    {
      i := i + 1;
    }
    IndexOfIs(s[from..], c, i - from);
  }

  /** `IndexOf` is the first position of `c`. */
  lemma IndexOfIs(s: string, c: char, i: nat)
    requires i <= |s| && (i < |s| ==> s[i] == c) && forall j :: 0 <= j < i ==> s[j] != c
    ensures IndexOf(s, c) == i
  {
  }

  /** The pieces the loop of `parse_form_encoded` has still to visit from `start` on. */
  function PiecesFrom(body: string, start: nat): seq<string>
  {
    if start < |body| then Pieces(body[start..]) else []
  }

  /** What the loop of `parse_form_encoded` keeps: the map holds the pieces visited, which with those from `start` on are all of them. */
  ghost predicate Parsing(body: string, done: seq<string>, start: nat, out: map<string, string>)
  {
    start <= |body| + 1 && out == FormOf(done) && Pieces(body) == done + PiecesFrom(body, start)
  }

  /** The pieces from `start` on are the one up to the next `&` (or the end), then those past it. */
  lemma PiecesFromStep(body: string, start: nat, end: nat)
    requires start < |body| && end == start + IndexOf(body[start..], '&')
    ensures PiecesFrom(body, start) == [body[start..end]] + PiecesFrom(body, end + 1)
  {
    var rest, e := body[start..], end - start;
    assert body[start..end] == rest[..e];
    assert PiecesFrom(body, start) == Pieces(rest);
    assert IndexOf(rest, '&') == e;
    var tail := if e < |rest| then Pieces(rest[e + 1..]) else [];
    assert Pieces(rest) == [rest[..e]] + tail;
    if end < |body| {
      assert rest[e + 1..] == body[end + 1..];
      if end + 1 == |body| {
        assert tail == Pieces([]) == [];
      }
    }
    assert tail == PiecesFrom(body, end + 1);
  }

  /** One turn of the loop moves one piece from those to visit to those visited. */
  lemma PiecesStep(done: seq<string>, body: string, start: nat, end: nat)
    requires start < |body| && end == start + IndexOf(body[start..], '&')
    ensures done + PiecesFrom(body, start) == (done + [body[start..end]]) + PiecesFrom(body, end + 1)
  {
    PiecesFromStep(body, start, end);
    var p, tail := body[start..end], PiecesFrom(body, end + 1);
    assert done + ([p] + tail) == (done + [p]) + tail;
  }

  /** Storing the next piece keeps `Parsing`. */
  lemma ParsingStep(body: string, done: seq<string>, start: nat, end: nat, out: map<string, string>)
    requires Parsing(body, done, start, out)
    requires start < |body| && end == start + IndexOf(body[start..], '&')
    ensures Parsing(body, done + [body[start..end]], end + 1,
                    out[KeyOf(body[start..end]) := ValueOf(body[start..end])])
  {
    PiecesStep(done, body, start, end);
    FormOfSnoc(done, body[start..end]);
  }

  /** The body of the loop of `parse_form_encoded`: split one piece at its first `=` and store it. */
  method StorePair(out: map<string, string>, pair: string) returns (r: map<string, string>)
    ensures r == out[KeyOf(pair) := ValueOf(pair)]
  {
    var eq := Find(pair, '=', 0);
    assert pair[0..] == pair;
    if eq < |pair| {
      var key := UrlDecode(pair[..eq]);
      var value := UrlDecode(pair[eq + 1..]);
      r := out[key := value];
    } else {
      var key := UrlDecode(pair);
      r := out[key := ""];
    }
  }

  /** The loop of `parse_form_encoded`: one piece per turn, stored into the map. */
  method ParseFormEncoded(body: string) returns (out: map<string, string>)
    ensures out == Form(body)
  {
    out := map[];
    ghost var done: seq<string> := [];
    var start := 0;
    assert body[0..] == body;
    assert Parsing(body, done, start, out);
    while start < |body|
      invariant Parsing(body, done, start, out)
      decreases |body| + 1 - start
    {
      var end := Find(body, '&', start);
      ParsingStep(body, done, start, end, out);
      out := StorePair(out, body[start..end]);
      done := done + [body[start..end]];
      start := end + 1;
    }
    assert done + [] == done;
  }

  // ------------------------------------------------------------- checkbox

  /** `parse_bool_value`: the spellings a checked box or a typed value may take. */
  predicate ParseBoolValue(value: string)
  {
    value == "1" || value == "on" || value == "true" || value == "TRUE"
  }

  /** How the page renders a stored bool (`"1"` or `"0"`). */
  function BoolText(b: bool): (t: string)
    ensures |t| == 1
  {
    if b then "1" else "0"
  }

  /** Reading back what the page renders gives the stored bool; no other spelling of false is accepted as true. */
  lemma ParseBoolText(b: bool)
    ensures ParseBoolValue(BoolText(b)) == b
    ensures !ParseBoolValue("") && !ParseBoolValue("0") && !ParseBoolValue("off") && !ParseBoolValue("false")
  {
  }

  /** The bool a submitted form gives a field: false when the field is missing (an unchecked box). */
  predicate FormBool(params: map<string, string>, key: string)
  {
    key in params && ParseBoolValue(params[key])
  }
}
