/**
 * The text layer of the AutoGen "DEF" output: the single-quoted string literal
 * written by writeDEFString, decimal line numbers, and the record/field tree that
 * the emitters build and that is rendered as `key = value;` text.
 */
module DefText {
  import opened Wrappers

  const QuoteChar: char := '\''
  const Backslash: char := '\\'

  /** The sentinel that opens and closes a heredoc-style literal block. */
  const LiteralSentinel: string := "_EnD_oF_dEf_TeXt_"

  // ---------------------------------------------------------------------------
  // Quoting (writeDEFString)
  // ---------------------------------------------------------------------------

  /** Number of single-quote characters in `s`. */
  function QuoteCount(s: string): nat
  {
    if s == [] then 0 else (if s[0] == QuoteChar then 1 else 0) + QuoteCount(s[1..])
  }

  /** The text written between the two quotes: a backslash before every quote. */
  function Escape(s: string): (r: string)
    ensures |r| == |s| + QuoteCount(s)
  {
    if s == [] then []
    else if s[0] == QuoteChar then [Backslash, QuoteChar] + Escape(s[1..])
    else [s[0]] + Escape(s[1..])
  }

  /** writeDEFString: the escaped text wrapped in single quotes. */
  function Quote(s: string): (r: string)
    ensures |r| == |s| + QuoteCount(s) + 2
    ensures r[0] == QuoteChar && r[|r| - 1] == QuoteChar
    ensures r[1..|r| - 1] == Escape(s)
  {
    [QuoteChar] + Escape(s) + [QuoteChar]
  }

  /** Reverses Escape: drops the backslash in front of each quote, scanning left
      to right; a quote without a backslash in front cannot occur in escaped text. */
  function Unescape(b: string): Option<string>
  {
    if b == [] then Some([])
    else if b[0] == QuoteChar then None
    else if b[0] == Backslash && |b| >= 2 && b[1] == QuoteChar then
      match Unescape(b[2..])
      case Some(rest) => Some([QuoteChar] + rest)
      case None => None
    else
      match Unescape(b[1..])
      case Some(rest) => Some([b[0]] + rest)
      case None => None
  }

  /** Reads the body of a quoted literal that has just been opened, up to the first
      quote that is not preceded by a backslash; yields the text and what follows. */
  function ReadBody(t: string): Option<(string, string)>
  {
    if t == [] then None
    else if t[0] == QuoteChar then Some(([], t[1..]))
    else if t[0] == Backslash && |t| >= 2 && t[1] == QuoteChar then
      match ReadBody(t[2..])
      case Some((body, rest)) => Some(([QuoteChar] + body, rest))
      case None => None
    else
      match ReadBody(t[1..])
      case Some((body, rest)) => Some(([t[0]] + body, rest))
      case None => None
  }

  /** A left-to-right reader of one quoted literal at the start of `t`. */
  function ReadQuoted(t: string): Option<(string, string)>
  {
    if t != [] && t[0] == QuoteChar then ReadBody(t[1..]) else None
  }

  /** Escaped text never starts with a bare quote. */
  lemma EscapeHead(s: string)
    requires s != []
    ensures Escape(s)[0] != QuoteChar
  {
  }

  /** Where each character of `s` lands in Escape(s): a quote is preceded by exactly
      one backslash, every other character is copied unchanged. Together with the
      length in Escape's contract this pins the escaped text down completely. */
  lemma {:induction false} EscapePlacement(s: string, i: nat)
    requires i < |s|
    ensures var j := i + QuoteCount(s[..i]);
      && (s[i] != QuoteChar ==> j < |Escape(s)| && Escape(s)[j] == s[i])
      && (s[i] == QuoteChar ==> j + 1 < |Escape(s)| && Escape(s)[j] == Backslash && Escape(s)[j + 1] == QuoteChar)
  {
    if i == 0 {
      assert s[..0] == [];
    } else {
      EscapePlacement(s[1..], i - 1);
      assert s[1..][..i - 1] == s[1..i];
      assert s[..i] == [s[0]] + s[1..i];
      assert QuoteCount(s[..i]) == (if s[0] == QuoteChar then 1 else 0) + QuoteCount(s[1..i]);
    }
  }

  /** Removing the backslash before each quote recovers the original text. */
  lemma {:induction false} UnescapeEscape(s: string)
    ensures Unescape(Escape(s)) == Some(s)
  {
    if s != [] {
      UnescapeEscape(s[1..]);
      if s[0] == QuoteChar {
        var e := Escape(s);
        assert e == [Backslash, QuoteChar] + Escape(s[1..]);
        assert e[0] == Backslash && e[1] == QuoteChar && e[2..] == Escape(s[1..]);
        assert Unescape(e) == Some([QuoteChar] + s[1..]);
        assert s == [s[0]] + s[1..];
      } else {
        var e := Escape(s);
        assert e == [s[0]] + Escape(s[1..]);
        assert e[1..] == Escape(s[1..]);
        if s[1..] != [] {
          EscapeHead(s[1..]);
          assert e[1] == Escape(s[1..])[0];
        }
        assert Unescape(e) == Some([s[0]] + s[1..]);
        assert s == [s[0]] + s[1..];
      }
    }
  }

  /** The quoted literal decodes back to its text: strip the two quotes, unescape. */
  lemma QuoteRoundTrip(s: string)
    ensures var q := Quote(s); Unescape(q[1..|q| - 1]) == Some(s)
  {
    UnescapeEscape(s);
  }

  /** One step of the reader over an escaped quote. */
  lemma ReadBodyEscapedQuote(u: string)
    ensures ReadBody([Backslash, QuoteChar] + u)
         == if ReadBody(u).Some? then Some(([QuoteChar] + ReadBody(u).value.0, ReadBody(u).value.1)) else None
  {
    assert ([Backslash, QuoteChar] + u)[2..] == u;
  }

  /** One step of the reader over an ordinary character. */
  lemma ReadBodyPlain(c: char, u: string)
    requires c != QuoteChar && (c != Backslash || u == [] || u[0] != QuoteChar)
    ensures ReadBody([c] + u)
         == if ReadBody(u).Some? then Some(([c] + ReadBody(u).value.0, ReadBody(u).value.1)) else None
  {
    assert ([c] + u)[1..] == u;
  }

  /** A streaming reader finds the end of the literal and recovers the text, as long
      as the text does not end in a backslash. */
  lemma {:induction false} ReadBodyEscape(s: string, rest: string)
    requires s == [] || s[|s| - 1] != Backslash
    ensures ReadBody(Escape(s) + [QuoteChar] + rest) == Some((s, rest))
  {
    var t := Escape(s) + [QuoteChar] + rest;
    if s == [] {
      assert t == [QuoteChar] + rest;
    } else {
      ReadBodyEscape(s[1..], rest);
      var t' := Escape(s[1..]) + [QuoteChar] + rest;
      assert s == [s[0]] + s[1..];
      if s[0] == QuoteChar {
        assert t == [Backslash, QuoteChar] + t';
        ReadBodyEscapedQuote(t');
      } else {
        assert t == [s[0]] + t';
        if s[0] == Backslash {
          assert s[1..] != [];
          EscapeHead(s[1..]);
        }
        ReadBodyPlain(s[0], t');
      }
    }
  }

  lemma QuoteReadBack(s: string, rest: string)
    requires s == [] || s[|s| - 1] != Backslash
    ensures ReadQuoted(Quote(s) + rest) == Some((s, rest))
  {
    ReadBodyEscape(s, rest);
    assert (Quote(s) + rest)[1..] == Escape(s) + [QuoteChar] + rest;
  }

  /** Since backslashes themselves are not escaped, a text that ends in a backslash
      makes its closing quote look escaped: the streaming reader never gets it back. */
  lemma {:induction false} ReadBodyMisreadsTrailingBackslash(s: string, rest: string)
    requires s != [] && s[|s| - 1] == Backslash
    ensures ReadBody(Escape(s) + [QuoteChar] + rest) != Some((s, rest))
  {
    if |s| == 1 {
      ReadBodyMisreadsBackslash(rest);
      assert s == [Backslash];
    } else {
      ReadBodyMisreadsTrailingBackslash(s[1..], rest);
      ReadBodyMisreadStep(s, rest);
    }
  }

  /** A lone backslash before the closing quote escapes it. */
  lemma ReadBodyMisreadsBackslash(rest: string)
    ensures ReadBody(Escape([Backslash]) + [QuoteChar] + rest) != Some(([Backslash], rest))
  {
    assert Escape([Backslash]) + [QuoteChar] + rest == [Backslash, QuoteChar] + rest;
    ReadBodyEscapedQuote(rest);
    if ReadBody(rest).Some? {
      assert ([QuoteChar] + ReadBody(rest).value.0)[0] != Backslash;
    }
  }

  /** The reader's miss carries over from the text without its first character. */
  lemma ReadBodyMisreadStep(s: string, rest: string)
    requires |s| >= 2 && s[|s| - 1] == Backslash
    requires ReadBody(Escape(s[1..]) + [QuoteChar] + rest) != Some((s[1..], rest))
    ensures ReadBody(Escape(s) + [QuoteChar] + rest) != Some((s, rest))
  {
    var t' := Escape(s[1..]) + [QuoteChar] + rest;
    assert s == [s[0]] + s[1..];
    if s[0] == QuoteChar {
      assert Escape(s) + [QuoteChar] + rest == [Backslash, QuoteChar] + t';
      ReadBodyEscapedQuote(t');
      ReadBodyMissStep(QuoteChar, [Backslash, QuoteChar] + t', t', s[1..], rest);
    } else {
      assert Escape(s) + [QuoteChar] + rest == [s[0]] + t';
      EscapeHead(s[1..]);
      ReadBodyPlain(s[0], t');
      ReadBodyMissStep(s[0], [s[0]] + t', t', s[1..], rest);
    }
  }

  /** A reader that misses the text after one character still misses it with the
      character in front. */
  lemma ReadBodyMissStep(c: char, t: string, t': string, s': string, rest: string)
    requires ReadBody(t) == if ReadBody(t').Some? then Some(([c] + ReadBody(t').value.0, ReadBody(t').value.1)) else None
    requires ReadBody(t') != Some((s', rest))
    ensures ReadBody(t) != Some(([c] + s', rest))
  {
    if ReadBody(t').Some? {
      var b := ReadBody(t').value.0;
      assert ([c] + b)[1..] == b;
      assert ([c] + s')[1..] == s';
    }
  }

  lemma QuoteTrailingBackslashUnreadable(s: string, rest: string)
    requires s != [] && s[|s| - 1] == Backslash
    ensures ReadQuoted(Quote(s) + rest) != Some((s, rest))
  {
    ReadBodyMisreadsTrailingBackslash(s, rest);
    assert (Quote(s) + rest)[1..] == Escape(s) + [QuoteChar] + rest;
  }

  /** Escaping leaves a string alone exactly when it holds no quote character. */
  lemma {:induction false} EscapeIdentity(s: string)
    ensures Escape(s) == s <==> QuoteChar !in s
  {
    if s != [] {
      EscapeIdentity(s[1..]);
      if s[0] == QuoteChar {
        assert |Escape(s)| > |s|;
      } else {
        assert Escape(s) == [s[0]] + Escape(s[1..]);
        assert s == [s[0]] + s[1..];
      }
    }
  }

  /** A string written between quotes without escaping reads the same as one written
      by Quote exactly when it holds no quote character; otherwise the two differ. */
  lemma RawQuoteAgreesWithQuote(s: string)
    ensures [QuoteChar] + s + [QuoteChar] == Quote(s) <==> QuoteChar !in s
  {
    EscapeIdentity(s);
    var q := Quote(s);
    if QuoteChar !in s {
      assert q == [QuoteChar] + s + [QuoteChar];
    }
  }

  // ---------------------------------------------------------------------------
  // Decimal numbers (how `t << int` writes a line number)
  // ---------------------------------------------------------------------------

  predicate IsDigit(c: char)
  {
    '0' <= c <= '9'
  }

  function DigitChar(d: nat): (c: char)
    requires d < 10
    ensures IsDigit(c)
  {
    ('0' as int + d) as char
  }

  function DigitValue(c: char): nat
    requires IsDigit(c)
  {
    (c as int) - ('0' as int)
  }

  function NatToString(n: nat): (r: string)
    ensures |r| >= 1
    ensures forall i :: 0 <= i < |r| ==> IsDigit(r[i])
  {
    if n < 10 then [DigitChar(n)] else NatToString(n / 10) + [DigitChar(n % 10)]
  }

  function IntToString(n: int): string
  {
    if n < 0 then "-" + NatToString(-n) else NatToString(n)
  }

  function ParseNat(s: string): nat
    requires forall i :: 0 <= i < |s| ==> IsDigit(s[i])
  {
    if s == [] then 0 else 10 * ParseNat(s[..|s| - 1]) + DigitValue(s[|s| - 1])
  }

  function ParseInt(s: string): int
  {
    if s != [] && s[0] == '-' && (forall i :: 1 <= i < |s| ==> IsDigit(s[i])) then 0 - ParseNat(s[1..]) as int
    else if forall i :: 0 <= i < |s| ==> IsDigit(s[i]) then ParseNat(s)
    else 0
  }

  lemma {:induction false} ParseNatToString(n: nat)
    ensures ParseNat(NatToString(n)) == n
  {
    var r := NatToString(n);
    if n >= 10 {
      ParseNatToString(n / 10);
      assert r[..|r| - 1] == NatToString(n / 10);
    }
  }

  /** A written line number reads back as the same number, and contains no quote,
      so writing it between raw quotes is safe. */
  lemma IntToStringRoundTrip(n: int)
    ensures ParseInt(IntToString(n)) == n
    ensures QuoteChar !in IntToString(n)
  {
    var r := IntToString(n);
    if n < 0 {
      ParseNatToString(-n);
      assert r[1..] == NatToString(-n);
    } else {
      ParseNatToString(n);
    }
  }

  // ---------------------------------------------------------------------------
  // The record tree
  // ---------------------------------------------------------------------------

  /** A field key: the record-family prefix the emitter prepends (e.g. `sec-mem-`)
      and the field's own tag (e.g. `kind`); the key text is their concatenation. */
  datatype Key = Key(prefix: string, tag: string)

  datatype Value =
    | Bare(text: string)          // key = text;            (an enumerated tag)
    | Quoted(text: string)        // key = 'text';          escaped by Quote
    | RawQuoted(text: string)     // key = 'text';          written without escaping
    | Literal(text: string)       // key = <<SENTINEL text SENTINEL;
    | Block(fields: seq<Field>)   // key = { fields };      one field per line
    | Inline(fields: seq<Field>)  // key = { fields };      all on one line

  datatype Field = Field(key: Key, value: Value)

  function KeyText(k: Key): string
  {
    k.prefix + k.tag
  }

  /** The values of all fields with key `k`, in order. */
  function Values(fs: seq<Field>, k: Key): seq<Value>
  {
    if fs == [] then [] else (if fs[0].key == k then [fs[0].value] else []) + Values(fs[1..], k)
  }

  predicate HasKey(fs: seq<Field>, k: Key)
  {
    Values(fs, k) != []
  }

  /** Every field of `fs` carries key `k`. */
  predicate AllKeyed(fs: seq<Field>, k: Key)
  {
    forall i :: 0 <= i < |fs| ==> fs[i].key == k
  }

  /** The values of a field list, in order. */
  function Bodies(fs: seq<Field>): (r: seq<Value>)
    ensures |r| == |fs|
    ensures forall i :: 0 <= i < |fs| ==> r[i] == fs[i].value
  {
    seq(|fs|, i requires 0 <= i < |fs| => fs[i].value)
  }

  lemma BodiesAppend(a: seq<Field>, b: seq<Field>)
    ensures Bodies(a + b) == Bodies(a) + Bodies(b)
  {
  }

  /** The query of each key of a four-field record with distinct keys. */
  lemma ValuesOfFour(a: Field, b: Field, c: Field, d: Field)
    requires a.key != b.key && a.key != c.key && a.key != d.key
    requires b.key != c.key && b.key != d.key && c.key != d.key
    ensures Values([a, b, c, d], a.key) == [a.value]
    ensures Values([a, b, c, d], b.key) == [b.value]
    ensures Values([a, b, c, d], c.key) == [c.value]
    ensures Values([a, b, c, d], d.key) == [d.value]
  {
    var fs := [a, b, c, d];
    ValuesDistinct(fs, 0);
    ValuesDistinct(fs, 1);
    ValuesDistinct(fs, 2);
    ValuesDistinct(fs, 3);
  }

  /** Every field of `fs` carries a key with prefix `p`. */
  predicate AllPrefixed(fs: seq<Field>, p: string)
  {
    forall i :: 0 <= i < |fs| ==> fs[i].key.prefix == p
  }

  /** The keys of `fs`, in order: the shape of a record without its contents. */
  function Keys(fs: seq<Field>): (r: seq<Key>)
    ensures |r| == |fs|
    ensures forall i :: 0 <= i < |fs| ==> r[i] == fs[i].key
  {
    seq(|fs|, i requires 0 <= i < |fs| => fs[i].key)
  }

  lemma KeysAppend(a: seq<Field>, b: seq<Field>)
    ensures Keys(a + b) == Keys(a) + Keys(b)
  {
  }

  lemma KeysJoin(a: seq<Field>, b: seq<Field>, c: seq<Field>, d: seq<Field>, e: seq<Field>)
    ensures Keys(a + b + c + d + e) == Keys(a) + Keys(b) + Keys(c) + Keys(d) + Keys(e)
  {
    KeysAppend(a, b);
    KeysAppend(a + b, c);
    KeysAppend(a + b + c, d);
    KeysAppend(a + b + c + d, e);
  }

  lemma {:induction false} ValuesAppend(a: seq<Field>, b: seq<Field>, k: Key)
    ensures Values(a + b, k) == Values(a, k) + Values(b, k)
  {
    if a != [] {
      assert (a + b)[0] == a[0];
      assert (a + b)[1..] == a[1..] + b;
      ValuesAppend(a[1..], b, k);
      var h := if a[0].key == k then [a[0].value] else [];
      assert Values(a, k) == h + Values(a[1..], k);
      calc {
        Values(a + b, k);
        h + Values(a[1..] + b, k);
        h + (Values(a[1..], k) + Values(b, k));
        (h + Values(a[1..], k)) + Values(b, k);
      }
    } else {
      assert a + b == b;
    }
  }

  lemma {:induction false} ValuesAllKeyed(fs: seq<Field>, k: Key)
    requires AllKeyed(fs, k)
    ensures |Values(fs, k)| == |fs|
    ensures forall i :: 0 <= i < |fs| ==> Values(fs, k)[i] == fs[i].value
  {
    if fs != [] {
      ValuesAllKeyed(fs[1..], k);
    }
  }

  lemma {:induction false} ValuesOtherKey(fs: seq<Field>, own: Key, k: Key)
    requires AllKeyed(fs, own) && k != own
    ensures Values(fs, k) == []
  {
    if fs != [] {
      ValuesOtherKey(fs[1..], own, k);
    }
  }

  lemma {:induction false} ValuesAbsent(fs: seq<Field>, k: Key)
    requires forall i :: 0 <= i < |fs| ==> fs[i].key != k
    ensures Values(fs, k) == []
  {
    if fs != [] {
      ValuesAbsent(fs[1..], k);
    }
  }

  /** A key that occurs once has exactly the value it is written with. */
  lemma {:induction false} ValuesDistinct(fs: seq<Field>, i: nat)
    requires i < |fs|
    requires forall j :: 0 <= j < |fs| && j != i ==> fs[j].key != fs[i].key
    ensures Values(fs, fs[i].key) == [fs[i].value]
  {
    if i == 0 {
      ValuesAbsent(fs[1..], fs[0].key);
    } else {
      ValuesDistinct(fs[1..], i - 1);
    }
  }

  /** A run of optional fields: each slot names a key and, when the field is to be
      written, its value. */
  type Slot = (Key, Option<Value>)

  /** The fields of the filled slots, in slot order. */
  function Written(slots: seq<Slot>): (r: seq<Field>)
    ensures |r| <= |slots|
  {
    if slots == [] then []
    else (if slots[0].1.Some? then [Field(slots[0].0, slots[0].1.value)] else []) + Written(slots[1..])
  }

  lemma {:induction false} WrittenAbsent(slots: seq<Slot>, k: Key)
    requires forall j :: 0 <= j < |slots| ==> slots[j].0 != k
    ensures Values(Written(slots), k) == []
  {
    if slots != [] {
      var h := if slots[0].1.Some? then [Field(slots[0].0, slots[0].1.value)] else [];
      WrittenAbsent(slots[1..], k);
      ValuesAppend(h, Written(slots[1..]), k);
    }
  }

  /** When the slots carry distinct keys, a query for a slot's key yields exactly the
      slot's value, or nothing when the slot is empty. */
  lemma {:induction false} WrittenValues(slots: seq<Slot>, i: nat)
    requires i < |slots|
    requires forall j :: 0 <= j < |slots| && j != i ==> slots[j].0 != slots[i].0
    ensures Values(Written(slots), slots[i].0) == if slots[i].1.Some? then [slots[i].1.value] else []
  {
    var k := slots[i].0;
    var h := if slots[0].1.Some? then [Field(slots[0].0, slots[0].1.value)] else [];
    ValuesAppend(h, Written(slots[1..]), k);
    if i == 0 {
      WrittenAbsent(slots[1..], k);
    } else {
      WrittenValues(slots[1..], i - 1);
    }
  }

  // ---------------------------------------------------------------------------
  // Rendering (indentation and the closing-brace comments are not modelled)
  // ---------------------------------------------------------------------------

  /** The text written for a value. A quoted value decodes back to its text; a value
      written between quotes without escaping reads like a quoted one exactly when it
      holds no quote; a block or inline record is enclosed in braces. */
  function RenderValue(v: Value, sep: string): (r: string)
    decreases v, 1
    ensures v.Quoted? ==> |r| >= 2 && Unescape(r[1..|r| - 1]) == Some(v.text)
    ensures v.RawQuoted? ==> (r == Quote(v.text) <==> QuoteChar !in v.text)
    ensures v.Block? || v.Inline? ==> |r| >= 3 && r[0] == '{' && r[|r| - 1] == '}'
  {
    match v
    case Bare(t) => t
    case Quoted(t) => QuoteRoundTrip(t); Quote(t)
    case RawQuoted(t) => RawQuoteAgreesWithQuote(t); [QuoteChar] + t + [QuoteChar]
    case Literal(t) => "<<" + LiteralSentinel + "\n" + t + "\n" + LiteralSentinel
    case Block(fs) => "{\n" + RenderFields(fs, "\n") + "}"
    case Inline(fs) => "{ " + RenderFields(fs, " ") + "}"
  }

  function RenderField(f: Field, sep: string): string
    decreases f, 2
  {
    KeyText(f.key) + " = " + RenderValue(f.value, sep) + ";" + sep
  }

  /** The text of a field list; it is empty exactly when there are no fields. */
  function RenderFields(fs: seq<Field>, sep: string): (r: string)
    decreases fs
    ensures r == [] <==> fs == []
  {
    if fs == [] then [] else RenderField(fs[0], sep) + RenderFields(fs[1..], sep)
  }

  /** Writing two field lists one after the other gives the text of the joined list. */
  lemma {:induction false} RenderFieldsAppend(a: seq<Field>, b: seq<Field>, sep: string)
    ensures RenderFields(a + b, sep) == RenderFields(a, sep) + RenderFields(b, sep)
  {
    if a == [] {
      assert a + b == b;
    } else {
      RenderFieldsAppend(a[1..], b, sep);
      assert (a + b)[1..] == a[1..] + b;
      assert (a + b)[0] == a[0];
      var f := RenderField(a[0], sep);
      assert RenderFields(a + b, sep) == f + RenderFields(a[1..] + b, sep);
      assert RenderFields(a, sep) == f + RenderFields(a[1..], sep);
    }
  }

}
