/** The zsh "metafication" byte escape (lib/zsh.ts:14-80): bytes that zsh
    uses as internal tokens are stored as the marker 0x83 followed by the
    byte with bit 5 flipped. */
module Meta {
  import opened Bytes

  const META: byte := 0x83
  const META_MASK: int := 0x20

  // The token bytes that make up the meta character set.
  const NULL: byte := 0x00
  const MARKER: byte := 0xA2
  const POUND: byte := 0x84
  const LAST_NORMAL_TOK: byte := 0x9C
  const SNULL: byte := 0x9D
  const NULARG: byte := 0xA1

  /** Membership in META_CHARS as the source lists it: NULL, META, MARKER
      and the token ranges POUND..LAST_NORMAL_TOK and SNULL..NULARG. */
  predicate IsMetaChar(c: byte)
  {
    c == NULL || c == META || c == MARKER
    || (POUND <= c <= LAST_NORMAL_TOK)
    || (SNULL <= c <= NULARG)
  }

  /** The listed set is exactly {0x00} plus the contiguous range 0x83..0xA2. */
  lemma MetaCharRange(c: byte)
    ensures IsMetaChar(c) <==> c == 0x00 || 0x83 <= c <= 0xA2
  {
  }

  /** Builds the META_CHARS table the way the source does: the three single
      tokens, then the two token ranges pushed one by one. */
  method BuildMetaChars() returns (chars: seq<byte>)
    ensures forall c: byte :: c in chars <==> IsMetaChar(c)
    ensures |chars| == 33
  {
    chars := [NULL, META, MARKER];
    var t: int := POUND as int;
    while t <= LAST_NORMAL_TOK as int
      invariant POUND as int <= t <= LAST_NORMAL_TOK as int + 1
      invariant |chars| == 3 + (t - POUND as int)
      invariant forall c: byte :: c in chars <==> c == NULL || c == META || c == MARKER || POUND as int <= c as int < t
    {
      chars := chars + [t as byte];
      t := t + 1;
    }
    t := SNULL as int;
    while t <= NULARG as int
      invariant SNULL as int <= t <= NULARG as int + 1
      invariant |chars| == 28 + (t - SNULL as int)
      invariant forall c: byte :: c in chars <==>
        c == NULL || c == META || c == MARKER || (POUND <= c <= LAST_NORMAL_TOK) || SNULL as int <= c as int < t
    {
      chars := chars + [t as byte];
      t := t + 1;
    }
  }

  /** `c XOR 0x20`: flips bit 5 of the byte. */
  function Xor20(c: byte): (r: byte)
    ensures r as int == c as int + META_MASK || r as int == c as int - META_MASK
    ensures (c as int / META_MASK) % 2 == 0 <==> r as int > c as int
  {
    if (c as int / META_MASK) % 2 == 0 then (c as int + META_MASK) as byte
    else (c as int - META_MASK) as byte
  }

  lemma Xor20Involutive(c: byte)
    ensures Xor20(Xor20(c)) == c
  {
  }

  /** The escaped form of a meta byte is never itself a meta byte, and never
      0x00, which is the sentinel the decoder rejects. */
  lemma EscapedIsPlain(c: byte)
    requires IsMetaChar(c)
    ensures !IsMetaChar(Xor20(c)) && Xor20(c) != 0
  {
  }

  /** What `metafy` emits for one input byte. */
  function Escape(c: byte): seq<byte>
  {
    if IsMetaChar(c) then [META, Xor20(c)] else [c]
  }

  /** The specification of `metafy`: each byte replaced by its escape, in order. */
  function Metafied(s: seq<byte>): seq<byte>
  {
    if s == [] then [] else Escape(s[0]) + Metafied(s[1..])
  }

  /** Metafication works byte by byte, so it distributes over concatenation. */
  lemma {:induction false} MetafiedAppend(a: seq<byte>, b: seq<byte>)
    ensures Metafied(a + b) == Metafied(a) + Metafied(b)
  {
    if a == [] {
      assert a + b == b;
    } else {
      assert (a + b)[1..] == a[1..] + b;
      MetafiedAppend(a[1..], b);
    }
  }

  /** Number of meta bytes in `s`. */
  function MetaCount(s: seq<byte>): nat
  {
    if s == [] then 0 else (if IsMetaChar(s[0]) then 1 else 0) + MetaCount(s[1..])
  }

  /** Metafication adds exactly one marker per meta byte. */
  lemma {:induction false} MetafiedLength(s: seq<byte>)
    ensures |Metafied(s)| == |s| + MetaCount(s)
  {
    if s != [] {
      MetafiedLength(s[1..]);
    }
  }

  /** No meta byte appears literally in a metafied payload except the marker,
      and every marker is followed by a plain byte. */
  lemma {:induction false} MetafiedHasOnlyMarkers(s: seq<byte>)
    ensures forall i :: 0 <= i < |Metafied(s)| && IsMetaChar(Metafied(s)[i]) ==>
      Metafied(s)[i] == META && i + 1 < |Metafied(s)| && !IsMetaChar(Metafied(s)[i + 1])
  {
    if s != [] {
      MetafiedHasOnlyMarkers(s[1..]);
      var m := Metafied(s);
      var e := Escape(s[0]);
      assert m == e + Metafied(s[1..]);
      if IsMetaChar(s[0]) {
        EscapedIsPlain(s[0]);
      }
      forall i | 0 <= i < |m| && IsMetaChar(m[i])
        ensures m[i] == META && i + 1 < |m| && !IsMetaChar(m[i + 1])
      {
        if i >= |e| {
          assert m[i] == Metafied(s[1..])[i - |e|];
          assert m[i + 1] == Metafied(s[1..])[i - |e| + 1];
        }
      }
    }
  }

  lemma MetafiedStep(str: seq<byte>, i: nat)
    requires i < |str|
    ensures Metafied(str[i..]) == Escape(str[i]) + Metafied(str[i + 1..])
  {
    assert str[i..][1..] == str[i + 1..];
  }

  /** `metafy` as the source runs it: one pass over the input pushing into a buffer. */
  method Metafy(str: seq<byte>) returns (buf: seq<byte>)
    ensures buf == Metafied(str)
  {
    buf := [];
    for i := 0 to |str|
      invariant buf + Metafied(str[i..]) == Metafied(str)
    {
      var current := str[i];
      MetafiedStep(str, i);
      if !IsMetaChar(current) {
        buf := buf + [current];
        continue;
      }
      buf := buf + [META];
      buf := buf + [Xor20(current)];
    }
    assert str[|str|..] == [];
  }

  /** Prefixes the bytes of a successful result; a failure stays a failure. */
  function Prepend(prefix: seq<byte>, r: Result<seq<byte>>): Result<seq<byte>>
  {
    match r
    case Ok(v) => Ok(prefix + v)
    case Err(e) => Err(e)
  }

  lemma PrependPrepend(a: seq<byte>, b: seq<byte>, r: Result<seq<byte>>)
    ensures Prepend(a, Prepend(b, r)) == Prepend(a + b, r)
    ensures Prepend([], r) == r
  {
    if r.Ok? {
      assert a + (b + r.value) == (a + b) + r.value;
      assert [] + r.value == r.value;
    }
  }

  /** The specification of `unmetafy`. A marker takes the next byte (or the
      sentinel 0 when there is none); a sentinel 0 is the "unreachable" error. */
  function Unmetafied(s: seq<byte>): Result<seq<byte>>
  {
    if s == [] then Ok([])
    else if s[0] == META then
      var next := if |s| > 1 then s[1] else 0;
      if next == 0 then Err("unreachable")
      else Prepend([Xor20(next)], Unmetafied(s[2..]))
    else Prepend([s[0]], Unmetafied(s[1..]))
  }

  /** `unmetafy` as the source runs it: the index skips the byte after a marker. */
  method Unmetafy(str: seq<byte>) returns (r: Result<seq<byte>>)
    ensures r == Unmetafied(str)
  {
    var buf: seq<byte> := [];
    var i := 0;
    PrependPrepend([], [], Unmetafied(str));
    assert str[0..] == str;
    while i < |str|
      invariant 0 <= i <= |str|
      invariant Unmetafied(str) == Prepend(buf, Unmetafied(str[i..]))
    {
      var current := str[i];
      var next := if i < |str| - 1 then str[i + 1] else 0;
      if current == META {
        if next == 0 {
          assert Unmetafied(str[i..]).Err?;
          return Err("unreachable");
        }
        assert str[i..][2..] == str[i + 2..];
        PrependPrepend(buf, [Xor20(next)], Unmetafied(str[i + 2..]));
        buf := buf + [Xor20(next)];
        i := i + 2;
        continue;
      }
      assert str[i..][1..] == str[i + 1..];
      PrependPrepend(buf, [current], Unmetafied(str[i + 1..]));
      buf := buf + [current];
      i := i + 1;
    }
    assert str[i..] == [];
    assert buf + [] == buf;
    r := Ok(buf);
  }

  /** Decoding distributes over a split after a completely decoded prefix. */
  lemma {:induction false} UnmetafiedAppend(a: seq<byte>, t: seq<byte>)
    requires Unmetafied(a).Ok?
    ensures Unmetafied(a + t) == Prepend(Unmetafied(a).value, Unmetafied(t))
  {
    if a == [] {
      assert a + t == t;
      PrependPrepend([], [], Unmetafied(t));
    } else if a[0] == META {
      assert (a + t)[2..] == a[2..] + t;
      UnmetafiedAppend(a[2..], t);
      PrependPrepend([Xor20(a[1])], Unmetafied(a[2..]).value, Unmetafied(t));
    } else {
      assert (a + t)[1..] == a[1..] + t;
      UnmetafiedAppend(a[1..], t);
      PrependPrepend([a[0]], Unmetafied(a[1..]).value, Unmetafied(t));
    }
  }

  /** After a well-formed prefix, a marker that is the last byte, or a marker
      followed by 0x00, makes the whole payload fail. */
  lemma DanglingMarker(a: seq<byte>, b: seq<byte>)
    requires Unmetafied(a).Ok?
    ensures Unmetafied(a + [META]).Err?
    ensures Unmetafied(a + [META, NULL] + b).Err?
  {
    UnmetafiedAppend(a, [META]);
    UnmetafiedAppend(a, [META, NULL] + b);
    assert a + [META, NULL] + b == a + ([META, NULL] + b);
  }

  /** Headline round trip: unmetafy undoes metafy on every byte sequence. */
  lemma {:induction false} UnmetafyMetafy(s: seq<byte>)
    ensures Unmetafied(Metafied(s)) == Ok(s)
  {
    if s != [] {
      UnmetafyMetafy(s[1..]);
      var m := Metafied(s);
      if IsMetaChar(s[0]) {
        EscapedIsPlain(s[0]);
        Xor20Involutive(s[0]);
        assert m[2..] == Metafied(s[1..]);
      } else {
        assert m[1..] == Metafied(s[1..]);
      }
      assert s == [s[0]] + s[1..];
    }
  }

  /** Unmetafying never makes the payload longer, and shortens it whenever a
      marker is present. */
  lemma {:induction false} UnmetafiedShrinks(s: seq<byte>)
    requires Unmetafied(s).Ok?
    ensures |Unmetafied(s).value| <= |s|
    ensures META in s ==> |Unmetafied(s).value| < |s|
  {
    if s != [] {
      if s[0] == META {
        UnmetafiedShrinks(s[2..]);
      } else {
        UnmetafiedShrinks(s[1..]);
        assert META in s ==> META in s[1..];
      }
    }
  }

  /** A payload decodes to itself exactly when it holds no marker byte. */
  lemma {:induction false} UnmetafiedIdentity(s: seq<byte>)
    ensures Unmetafied(s) == Ok(s) <==> META !in s
  {
    if META in s {
      if Unmetafied(s).Ok? {
        UnmetafiedShrinks(s);
      }
    } else if s != [] {
      UnmetafiedIdentity(s[1..]);
      assert s == [s[0]] + s[1..];
    }
  }
}
