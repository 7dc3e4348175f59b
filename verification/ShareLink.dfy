// The share link of a Trojan or Hysteria client: scheme, password, address, parameters and
// remark in one string, taken apart again at the delimiters of RFC 3986 (sections 2.1,
// 3.2.1, 3.4 and 3.5).

module ShareLink {

  import opened Options
  import Text

  // Strings are strings of bytes, a byte being a character below U+0100.
  type Byte = c: char | c < '\U{0100}'

  type Bytes = seq<Byte>

  // ------------------------------------------------------------------
  // Escaping
  // ------------------------------------------------------------------

  predicate Unreserved(c: Byte) {
    'a' <= c <= 'z' || 'A' <= c <= 'Z' || '0' <= c <= '9' || c == '-' || c == '_' || c == '.' || c == '~'
  }

  function Hex(n: nat): Byte
    requires n < 16
  {
    if n < 10 then '0' + n as char else 'A' + (n - 10) as char
  }

  function HexValue(c: Byte): (n: int)
    ensures -1 <= n < 16
  {
    if '0' <= c <= '9' then (c - '0') as int
    else if 'A' <= c <= 'F' then (c - 'A') as int + 10
    else if 'a' <= c <= 'f' then (c - 'a') as int + 10
    else -1
  }

  function Percent(c: Byte): Bytes {
    ['%', Hex(c as int / 16), Hex(c as int % 16)]
  }

  // A space is a plus in a query and %20 elsewhere.
  function Escape(c: Byte, space: Bytes): Bytes {
    if Unreserved(c) then [c] else if c == ' ' then space else Percent(c)
  }

  // The characters that are printed as themselves, written out.
  predicate Kept(c: Byte) {
    || c in {'A', 'B', 'C', 'D', 'E', 'F', 'G', 'H', 'I', 'J', 'K', 'L', 'M'}
    || c in {'N', 'O', 'P', 'Q', 'R', 'S', 'T', 'U', 'V', 'W', 'X', 'Y', 'Z'}
    || c in {'a', 'b', 'c', 'd', 'e', 'f', 'g', 'h', 'i', 'j', 'k', 'l', 'm'}
    || c in {'n', 'o', 'p', 'q', 'r', 's', 't', 'u', 'v', 'w', 'x', 'y', 'z'}
    || c in {'0', '1', '2', '3', '4', '5', '6', '7', '8', '9', '-', '_', '.', '~'}
  }

  lemma PrintedAsItself(c: Byte, space: Bytes)
    requires space != [' ']
    ensures Escape(c, space) == [c] <==> Kept(c)
  {
  }

  function EscapeAll(s: Bytes, space: Bytes): Bytes {
    if s == [] then [] else Escape(s[0], space) + EscapeAll(s[1..], space)
  }

  function QueryEscape(s: Bytes): Bytes {
    EscapeAll(s, ['+'])
  }

  function ReplacePlus(s: Bytes): Bytes {
    if s == [] then [] else (if s[0] == '+' then ['%', '2', '0'] else [s[0]]) + ReplacePlus(s[1..])
  }

  lemma {:induction false} ReplaceAppends(a: Bytes, b: Bytes)
    ensures ReplacePlus(a + b) == ReplacePlus(a) + ReplacePlus(b)
    decreases |a|
  {
    if a == [] {
      assert a + b == b;
    } else {
      assert (a + b)[1..] == a[1..] + b;
      ReplaceAppends(a[1..], b);
    }
  }

  lemma {:induction false} NothingToReplace(s: Bytes)
    requires '+' !in s
    ensures ReplacePlus(s) == s
  {
    if s != [] {
      NothingToReplace(s[1..]);
      assert s == [s[0]] + s[1..];
    }
  }

  lemma HexIsDigit(n: nat)
    requires n < 16
    ensures Unreserved(Hex(n)) && HexValue(Hex(n)) == n && Hex(n) != '+'
  {
  }

  lemma ReplaceEscape(c: Byte)
    ensures ReplacePlus(Escape(c, ['+'])) == Escape(c, ['%', '2', '0'])
  {
    if c == ' ' {
      assert ['+'][1..] == [];
    } else {
      HexIsDigit(c as int / 16);
      HexIsDigit(c as int % 16);
      NothingToReplace(Escape(c, ['+']));
    }
  }

  // Escaping for a query and then replacing the pluses: a plus of the password itself is
  // never one of them.
  lemma {:induction false} UserinfoEscapes(s: Bytes)
    ensures ReplacePlus(QueryEscape(s)) == EscapeAll(s, ['%', '2', '0'])
  {
    if s != [] {
      UserinfoEscapes(s[1..]);
      ReplaceAppends(Escape(s[0], ['+']), QueryEscape(s[1..]));
      ReplaceEscape(s[0]);
    }
  }

  function EncodeUserinfo(s: Bytes): (r: Bytes)
    ensures r == EscapeAll(s, ['%', '2', '0'])
  {
    UserinfoEscapes(s);
    ReplacePlus(QueryEscape(s))
  }

  // ------------------------------------------------------------------
  // Decoding
  // ------------------------------------------------------------------

  function Prepend(c: Byte, r: Option<Bytes>): Option<Bytes> {
    if r.Some? then Some([c] + r.value) else None
  }

  // Percent triples become bytes; a plus becomes a space in a query.
  function Decode(s: Bytes, query: bool): Option<Bytes> {
    if s == [] then Some([])
    else if s[0] == '%' then
      if |s| >= 3 && HexValue(s[1]) >= 0 && HexValue(s[2]) >= 0
      then Prepend((HexValue(s[1]) * 16 + HexValue(s[2])) as char, Decode(s[3..], query))
      else None
    else if s[0] == '+' && query then Prepend(' ', Decode(s[1..], query))
    else Prepend(s[0], Decode(s[1..], query))
  }

  function Space(query: bool): Bytes {
    if query then ['+'] else ['%', '2', '0']
  }

  lemma DecodeOne(c: Byte, rest: Bytes, query: bool)
    ensures Decode(Escape(c, Space(query)) + rest, query) == Prepend(c, Decode(rest, query))
  {
    var e := Escape(c, Space(query));
    var s := e + rest;
    if |e| == 1 {
      assert s[1..] == rest;
    } else {
      assert |e| == 3 && s[3..] == rest;
      if c != ' ' {
        HexIsDigit(c as int / 16);
        HexIsDigit(c as int % 16);
        assert (c as int / 16) * 16 + c as int % 16 == c as int;
        assert s[1] == Hex(c as int / 16) && s[2] == Hex(c as int % 16);
      }
    }
  }

  lemma {:induction false} DecodeEscaped(s: Bytes, query: bool)
    ensures Decode(EscapeAll(s, Space(query)), query) == Some(s)
  {
    if s != [] {
      DecodeEscaped(s[1..], query);
      DecodeOne(s[0], EscapeAll(s[1..], Space(query)), query);
      assert [s[0]] + s[1..] == s;
    }
  }

  // Escaped text has none of the delimiters.
  predicate Plain(s: Bytes) {
    forall i | 0 <= i < |s| :: Unreserved(s[i]) || s[i] == '%' || s[i] == '+'
  }

  lemma {:induction false} EscapedIsPlain(s: Bytes, query: bool)
    ensures Plain(EscapeAll(s, Space(query)))
  {
    if s != [] {
      EscapedIsPlain(s[1..], query);
      var c := s[0];
      if !Unreserved(c) && c != ' ' {
        HexIsDigit(c as int / 16);
        HexIsDigit(c as int % 16);
      }
    }
  }

  // ------------------------------------------------------------------
  // Cutting at a delimiter
  // ------------------------------------------------------------------

  // The first position of c, or the length when there is none.
  function IndexOf(s: Bytes, c: Byte): (n: nat)
    ensures n <= |s| && (n < |s| ==> s[n] == c)
    ensures forall i | 0 <= i < n :: s[i] != c
  {
    if s == [] || s[0] == c then 0 else 1 + IndexOf(s[1..], c)
  }

  function Before(s: Bytes, c: Byte): Bytes {
    s[..IndexOf(s, c)]
  }

  function After(s: Bytes, c: Byte): Bytes {
    if IndexOf(s, c) < |s| then s[IndexOf(s, c) + 1..] else []
  }

  lemma CutAt(a: Bytes, c: Byte, b: Bytes)
    requires c !in a
    ensures Before(a + [c] + b, c) == a && After(a + [c] + b, c) == b
  {
    var s := a + [c] + b;
    assert s[|a|] == c;
    assert forall i | 0 <= i < |a| :: s[i] == a[i] != c;
  }

  lemma NothingToCut(a: Bytes, c: Byte)
    requires c !in a
    ensures Before(a, c) == a && After(a, c) == []
  {
    assert forall i | 0 <= i < |a| :: a[i] != c;
  }

  // ------------------------------------------------------------------
  // The query
  // ------------------------------------------------------------------

  function Pair(k: Bytes, v: Bytes): Bytes {
    QueryEscape(k) + ['='] + QueryEscape(v)
  }

  // The parameters in the given order of their names.
  function Query(keys: seq<Bytes>, m: map<Bytes, Bytes>): Bytes
    requires forall k | k in keys :: k in m
  {
    if keys == [] then []
    else if |keys| == 1 then Pair(keys[0], m[keys[0]])
    else Pair(keys[0], m[keys[0]]) + ['&'] + Query(keys[1..], m)
  }

  function AddPair(s: Bytes, m: Option<map<Bytes, Bytes>>): Option<map<Bytes, Bytes>> {
    var k, v := Decode(Before(s, '='), true), Decode(After(s, '='), true);
    if m.Some? && k.Some? && v.Some? then Some(m.value[k.value := v.value]) else None
  }

  function ParseQuery(s: Bytes): Option<map<Bytes, Bytes>> {
    if IndexOf(s, '&') == |s| then AddPair(s, Some(map[])) else AddPair(Before(s, '&'), ParseQuery(After(s, '&')))
  }

  lemma PlainHasNoDelimiter(s: Bytes)
    requires Plain(s)
    ensures '&' !in s && '=' !in s && '#' !in s && '?' !in s && '@' !in s && ':' !in s && '/' !in s
  {
  }

  lemma PairParses(k: Bytes, v: Bytes, m: Option<map<Bytes, Bytes>>)
    ensures AddPair(Pair(k, v), m) == if m.Some? then Some(m.value[k := v]) else None
    ensures '&' !in Pair(k, v) && '#' !in Pair(k, v)
  {
    EscapedIsPlain(k, true);
    EscapedIsPlain(v, true);
    PlainHasNoDelimiter(QueryEscape(k));
    PlainHasNoDelimiter(QueryEscape(v));
    CutAt(QueryEscape(k), '=', QueryEscape(v));
    DecodeEscaped(k, true);
    DecodeEscaped(v, true);
  }

  function Restrict(keys: seq<Bytes>, m: map<Bytes, Bytes>): map<Bytes, Bytes>
    requires forall k | k in keys :: k in m
  {
    map k | k in keys :: m[k]
  }

  lemma RestrictSplits(keys: seq<Bytes>, m: map<Bytes, Bytes>)
    requires keys != [] && forall k | k in keys :: k in m
    ensures Restrict(keys, m) == Restrict(keys[1..], m)[keys[0] := m[keys[0]]]
  {
  }

  lemma {:induction false} QueryHasNoNumberSign(keys: seq<Bytes>, m: map<Bytes, Bytes>)
    requires forall k | k in keys :: k in m
    ensures '#' !in Query(keys, m)
    decreases |keys|
  {
    if keys != [] {
      PairParses(keys[0], m[keys[0]], None);
      QueryHasNoNumberSign(keys[1..], m);
    }
  }

  lemma FirstPairParses(k: Bytes, v: Bytes, rest: Bytes)
    requires ParseQuery(rest).Some?
    ensures ParseQuery(Pair(k, v) + ['&'] + rest) == Some(ParseQuery(rest).value[k := v])
  {
    PairParses(k, v, ParseQuery(rest));
    CutAt(Pair(k, v), '&', rest);
  }

  lemma OnlyPairParses(k: Bytes, v: Bytes)
    ensures ParseQuery(Pair(k, v)) == Some(map[k := v])
  {
    PairParses(k, v, Some(map[]));
    NothingToCut(Pair(k, v), '&');
  }

  lemma MorePairsParse(keys: seq<Bytes>, m: map<Bytes, Bytes>)
    requires |keys| > 1 && (forall k | k in keys :: k in m)
    requires ParseQuery(Query(keys[1..], m)) == Some(Restrict(keys[1..], m))
    ensures ParseQuery(Query(keys, m)) == Some(Restrict(keys, m))
  {
    FirstPairParses(keys[0], m[keys[0]], Query(keys[1..], m));
    RestrictSplits(keys, m);
  }

  // Splitting the query at & and = and decoding gives the parameters back.
  lemma {:induction false} QueryParses(keys: seq<Bytes>, m: map<Bytes, Bytes>)
    requires keys != [] && forall k | k in keys :: k in m
    ensures ParseQuery(Query(keys, m)) == Some(Restrict(keys, m))
    decreases |keys|
  {
    if |keys| == 1 {
      OnlyPairParses(keys[0], m[keys[0]]);
      assert Restrict(keys, m) == map[keys[0] := m[keys[0]]];
    } else {
      QueryParses(keys[1..], m);
      MorePairsParse(keys, m);
    }
  }

  // ------------------------------------------------------------------
  // The link
  // ------------------------------------------------------------------

  // The parameters that are printed: an override replaces the security that is there, and
  // without TLS its three fields are left out.
  function Shown(params: map<Bytes, Bytes>, override: Bytes, omitTls: bool): map<Bytes, Bytes> {
    map k | k in params && !(omitTls && (k == "alpn" || k == "sni" || k == "fp")) ::
      if override != [] && k == "security" then override else params[k]
  }

  // The names of the shown parameters, each once; the library prints them sorted.
  ghost predicate NamesOf(keys: seq<Bytes>, m: map<Bytes, Bytes>) {
    (forall k :: k in m <==> k in keys) && (forall i, j | 0 <= i < j < |keys| :: keys[i] != keys[j])
  }

  function QueryPart(link: Bytes, keys: seq<Bytes>, m: map<Bytes, Bytes>): Bytes
    requires forall k | k in keys :: k in m
  {
    if keys == [] then [] else (if '?' in link then ['&'] else ['?']) + Query(keys, m)
  }

  function FragmentPart(fragment: Bytes): Bytes {
    if fragment == [] then [] else ['#'] + EncodeUserinfo(fragment)
  }

  lemma QueryIsEmptyIff(keys: seq<Bytes>, m: map<Bytes, Bytes>)
    requires forall k | k in keys :: k in m
    ensures Query(keys, m) == [] <==> keys == []
  {
    assert keys != [] ==> |Pair(keys[0], m[keys[0]])| >= 1;
  }

  lemma NamedParameter(params: map<Bytes, Bytes>, override: Bytes, omitTls: bool, k: Bytes)
    requires k in Shown(params, override, omitTls)
    ensures |params| > 0
  {
    assert k in params;
  }

  method AppendQuery(link: Bytes, params: map<Bytes, Bytes>, securityOverride: Bytes, omitTlsFields: bool,
                     order: seq<Bytes>)
    returns (out: Bytes)
    requires NamesOf(order, Shown(params, securityOverride, omitTlsFields))
    ensures out == link + QueryPart(link, order, Shown(params, securityOverride, omitTlsFields))
  {
    var shown := Shown(params, securityOverride, omitTlsFields);
    QueryIsEmptyIff(order, shown);
    if order != [] {
      NamedParameter(params, securityOverride, omitTlsFields, order[0]);
    }
    if |params| > 0 && Query(order, shown) != [] {
      return link + ((if '?' in link then ['&'] else ['?']) + Query(order, shown));
    }
    return link;
  }

  // Appends the shown parameters as a query and the remark as a fragment, each only when
  // there is something to print.
  method AppendQueryAndFragment(link: Bytes, params: map<Bytes, Bytes>, fragment: Bytes, securityOverride: Bytes,
                                omitTlsFields: bool, order: seq<Bytes>)
    returns (out: Bytes)
    requires NamesOf(order, Shown(params, securityOverride, omitTlsFields))
    ensures out == link + QueryPart(link, order, Shown(params, securityOverride, omitTlsFields)) +
      FragmentPart(fragment)
  {
    out := AppendQuery(link, params, securityOverride, omitTlsFields, order);
    if fragment != [] {
      out := out + (['#'] + EncodeUserinfo(fragment));
    }
  }

  // ------------------------------------------------------------------
  // Round trip
  // ------------------------------------------------------------------

  function Digits(n: nat): (r: Bytes)
    ensures forall i | 0 <= i < |r| :: '0' <= r[i] <= '9'
  {
    Text.Decimal(n)
  }

  function Base(scheme: Bytes, password: Bytes, dest: Bytes, port: nat): Bytes {
    scheme + [':', '/', '/'] + EncodeUserinfo(password) + ['@'] + dest + [':'] + Digits(port)
  }

  // What a client reads from a link: cut at #, at ? and, after the scheme, at @.
  datatype Parsed = Parsed(scheme: Bytes, password: Bytes, address: Bytes, params: map<Bytes, Bytes>, remark: Bytes)

  function ParseAuthority(base: Bytes, params: map<Bytes, Bytes>, remark: Bytes): Option<Parsed> {
    var user := Before(base, '@');
    var encoded := After(user, ':');
    if |encoded| < 2 then None
    else
      var password := Decode(encoded[2..], false);
      if password.None? then None
      else Some(Parsed(Before(user, ':'), password.value, After(base, '@'), params, remark))
  }

  function ParseParams(query: Bytes): Option<map<Bytes, Bytes>> {
    if query == [] then Some(map[]) else ParseQuery(query)
  }

  function ParseLink(link: Bytes): Option<Parsed> {
    var remark := Decode(After(link, '#'), false);
    var head := Before(link, '#');
    var params := ParseParams(After(head, '?'));
    if remark.None? || params.None? then None else ParseAuthority(Before(head, '?'), params.value, remark.value)
  }

  lemma UserParses(scheme: Bytes, enc: Bytes)
    requires Plain(scheme) && Plain(enc)
    ensures var user := scheme + [':', '/', '/'] + enc;
            '@' !in user && Before(user, ':') == scheme && After(user, ':') == ['/', '/'] + enc
  {
    PlainHasNoDelimiter(enc);
    PlainHasNoDelimiter(scheme);
    assert scheme + [':', '/', '/'] + enc == scheme + [':'] + (['/', '/'] + enc);
    CutAt(scheme, ':', ['/', '/'] + enc);
  }

  lemma AuthorityParses(scheme: Bytes, password: Bytes, address: Bytes, params: map<Bytes, Bytes>, remark: Bytes)
    requires Plain(scheme)
    ensures ParseAuthority(scheme + [':', '/', '/'] + EncodeUserinfo(password) + ['@'] + address, params, remark) ==
            Some(Parsed(scheme, password, address, params, remark))
  {
    var enc := EncodeUserinfo(password);
    EscapedIsPlain(password, false);
    DecodeEscaped(password, false);
    UserParses(scheme, enc);
    CutAt(scheme + [':', '/', '/'] + enc, '@', address);
    assert (['/', '/'] + enc)[2..] == enc;
  }

  // The part before the query, when the address has none of its delimiters.
  predicate CleanAddress(dest: Bytes) {
    '?' !in dest && '#' !in dest
  }

  lemma BaseIsClean(scheme: Bytes, password: Bytes, dest: Bytes, port: nat)
    requires Plain(scheme) && CleanAddress(dest)
    ensures CleanAddress(Base(scheme, password, dest, port))
  {
    EscapedIsPlain(password, false);
    PlainHasNoDelimiter(EncodeUserinfo(password));
    PlainHasNoDelimiter(scheme);
    assert Plain(Digits(port));
    PlainHasNoDelimiter(Digits(port));
  }

  lemma HeadParses(base: Bytes, keys: seq<Bytes>, m: map<Bytes, Bytes>)
    requires CleanAddress(base) && forall k | k in keys :: k in m
    ensures var head := base + QueryPart(base, keys, m);
            '#' !in head && Before(head, '?') == base && After(head, '?') == Query(keys, m)
  {
    if keys != [] {
      QueryHasNoNumberSign(keys, m);
      assert base + QueryPart(base, keys, m) == base + ['?'] + Query(keys, m);
      CutAt(base, '?', Query(keys, m));
    } else {
      assert base + QueryPart(base, keys, m) == base;
      NothingToCut(base, '?');
    }
  }

  lemma FragmentParses(head: Bytes, fragment: Bytes)
    requires '#' !in head
    ensures var link := head + FragmentPart(fragment);
            Before(link, '#') == head && Decode(After(link, '#'), false) == Some(fragment)
  {
    if fragment == [] {
      assert head + FragmentPart(fragment) == head;
      NothingToCut(head, '#');
    } else {
      DecodeEscaped(fragment, false);
      assert head + FragmentPart(fragment) == head + ['#'] + EncodeUserinfo(fragment);
      CutAt(head, '#', EncodeUserinfo(fragment));
    }
  }

  lemma ParamsParse(keys: seq<Bytes>, m: map<Bytes, Bytes>)
    requires NamesOf(keys, m)
    ensures ParseParams(Query(keys, m)) == Some(m)
  {
    QueryIsEmptyIff(keys, m);
    if keys != [] {
      QueryParses(keys, m);
      assert Restrict(keys, m) == m;
    } else {
      assert m == map[];
    }
  }

  lemma TailParses(base: Bytes, keys: seq<Bytes>, m: map<Bytes, Bytes>, remark: Bytes)
    requires CleanAddress(base) && NamesOf(keys, m)
    ensures ParseLink(base + QueryPart(base, keys, m) + FragmentPart(remark)) == ParseAuthority(base, m, remark)
  {
    HeadParses(base, keys, m);
    FragmentParses(base + QueryPart(base, keys, m), remark);
    ParamsParse(keys, m);
  }

  lemma BaseParses(scheme: Bytes, password: Bytes, dest: Bytes, port: nat, params: map<Bytes, Bytes>, remark: Bytes)
    requires Plain(scheme)
    ensures ParseAuthority(Base(scheme, password, dest, port), params, remark) ==
            Some(Parsed(scheme, password, dest + [':'] + Digits(port), params, remark))
  {
    var address := dest + [':'] + Digits(port);
    assert Base(scheme, password, dest, port) == scheme + [':', '/', '/'] + EncodeUserinfo(password) + ['@'] + address;
    AuthorityParses(scheme, password, address, params, remark);
  }

  // Taking a printed link apart and decoding gives back the scheme, the password, the
  // address, the parameters and the remark, whatever bytes they are made of.
  lemma LinkRoundTrips(scheme: Bytes, password: Bytes, dest: Bytes, port: nat, keys: seq<Bytes>, m: map<Bytes, Bytes>,
                       remark: Bytes)
    requires Plain(scheme) && NamesOf(keys, m) && CleanAddress(dest)
    ensures var base := Base(scheme, password, dest, port);
            ParseLink(base + QueryPart(base, keys, m) + FragmentPart(remark)) ==
              Some(Parsed(scheme, password, dest + [':'] + Digits(port), m, remark))
  {
    BaseIsClean(scheme, password, dest, port);
    TailParses(Base(scheme, password, dest, port), keys, m, remark);
    BaseParses(scheme, password, dest, port, m, remark);
  }

  // The cut falls inside the address when that holds a delimiter.
  lemma CutInside(prefix: Bytes, dest: Bytes, tail: Bytes, c: Byte)
    requires c !in prefix && c in dest
    ensures var cut := Before(prefix + dest + tail, c);
            |prefix| <= |cut| < |prefix + dest| && cut == prefix + dest[..|cut| - |prefix|]
  {
    var s := prefix + dest + tail;
    var i :| 0 <= i < |dest| && dest[i] == c;
    assert s[|prefix| + i] == c;
    assert forall j | 0 <= j < |prefix| :: s[j] == prefix[j] != c;
    var n := IndexOf(s, c);
    assert s[..n] == prefix + dest[..n - |prefix|];
  }

  lemma HeadHoldsAddress(prefix: Bytes, dest: Bytes, rest: Bytes)
    requires '#' !in prefix && '#' !in dest
    ensures var head := Before(prefix + dest + rest, '#');
            |head| >= |prefix + dest| && head[..|prefix + dest|] == prefix + dest
  {
    var s := prefix + dest + rest;
    forall j | 0 <= j < |prefix + dest| ensures s[j] != '#' {
      if j < |prefix| {
        assert s[j] == prefix[j];
      } else {
        assert s[j] == dest[j - |prefix|];
      }
    }
  }

  // Cutting at # and then at ? leaves less than the whole address.
  lemma AddressIsCut(prefix: Bytes, dest: Bytes, rest: Bytes) returns (kept: Bytes)
    requires CleanAddress(prefix) && !CleanAddress(dest)
    ensures Before(Before(prefix + dest + rest, '#'), '?') == prefix + kept && |kept| < |dest|
  {
    var head := Before(prefix + dest + rest, '#');
    if '#' in dest {
      CutInside(prefix, dest, rest, '#');
      kept := dest[..|head| - |prefix|];
      if '?' in kept {
        CutInside(prefix, kept, [], '?');
        assert prefix + kept + [] == head;
        kept := kept[..|Before(head, '?')| - |prefix|];
      } else {
        NothingToCut(head, '?');
      }
    } else {
      HeadHoldsAddress(prefix, dest, rest);
      CutInside(prefix, dest, head[|prefix + dest|..], '?');
      assert head == prefix + dest + head[|prefix + dest|..];
      kept := dest[..|Before(head, '?')| - |prefix|];
    }
  }

  lemma DirtyAddressIsCut(scheme: Bytes, password: Bytes, dest: Bytes, port: nat, tail: Bytes)
    requires Plain(scheme) && !CleanAddress(dest)
    ensures var p := ParseLink(Base(scheme, password, dest, port) + tail);
            p.Some? ==> |p.value.address| < |dest|
  {
    var enc := EncodeUserinfo(password);
    EscapedIsPlain(password, false);
    PlainHasNoDelimiter(enc);
    PlainHasNoDelimiter(scheme);
    var prefix := scheme + [':', '/', '/'] + enc + ['@'];
    var link := Base(scheme, password, dest, port) + tail;
    assert link == prefix + dest + ([':'] + Digits(port) + tail);
    var kept := AddressIsCut(prefix, dest, [':'] + Digits(port) + tail);
    var params := ParseParams(After(Before(link, '#'), '?'));
    var remark := Decode(After(link, '#'), false);
    if params.Some? && remark.Some? {
      AuthorityParses(scheme, password, kept, params.value, remark.value);
    }
  }

  // The round trip holds exactly for addresses without a question mark or a number sign,
  // which no host name or IP address has.
  lemma LinkRoundTripsIff(scheme: Bytes, password: Bytes, dest: Bytes, port: nat, keys: seq<Bytes>,
                          m: map<Bytes, Bytes>, remark: Bytes)
    requires Plain(scheme) && NamesOf(keys, m)
    ensures var base := Base(scheme, password, dest, port);
            ParseLink(base + QueryPart(base, keys, m) + FragmentPart(remark)) ==
              Some(Parsed(scheme, password, dest + [':'] + Digits(port), m, remark))
            <==> CleanAddress(dest)
  {
    var base := Base(scheme, password, dest, port);
    if CleanAddress(dest) {
      LinkRoundTrips(scheme, password, dest, port, keys, m, remark);
    } else {
      assert base + QueryPart(base, keys, m) + FragmentPart(remark) ==
        base + (QueryPart(base, keys, m) + FragmentPart(remark));
      DirtyAddressIsCut(scheme, password, dest, port, QueryPart(base, keys, m) + FragmentPart(remark));
    }
  }

  // What a client reads from a printed link: every parameter but, when they are to be left
  // out, the three TLS fields, with the security replaced by an override that is not empty.
  lemma PrintedParameters(scheme: Bytes, password: Bytes, dest: Bytes, port: nat, params: map<Bytes, Bytes>,
                          override: Bytes, omitTls: bool, order: seq<Bytes>, remark: Bytes)
    requires Plain(scheme) && CleanAddress(dest) && NamesOf(order, Shown(params, override, omitTls))
    ensures var base, shown := Base(scheme, password, dest, port), Shown(params, override, omitTls);
            var read := ParseLink(base + QueryPart(base, order, shown) + FragmentPart(remark));
            && read.Some?
            && (forall k :: k in read.value.params <==>
                  k in params && (k == "alpn" || k == "sni" || k == "fp" ==> !omitTls))
            && (forall k | k in read.value.params ::
                  read.value.params[k] == if k == "security" && override != [] then override else params[k])
  {
    LinkRoundTrips(scheme, password, dest, port, order, Shown(params, override, omitTls), remark);
  }
}
