/**
 * `serde_json::to_string` of the resolved `HashMap<String, String>`
 * (packages/cli-rs/src/main.rs): string escaping as serde_json writes it
 * (section 7 of RFC 8259), the object layout `{"k":"v",...}`, and a reader
 * for that layout, so that the serialisation is shown to lose nothing.
 */
module Json {
  import opened Wrappers
  import opened Strings

  /** A lower-case hexadecimal digit, as serde_json writes `\u00XX`. */
  function HexDigit(n: nat): (c: char)
    requires n < 16
    ensures ('0' <= c <= '9') || ('a' <= c <= 'f')
  {
    if n < 10 then (48 + n) as char else (87 + n) as char
  }

  /** The value of a hexadecimal digit in either case (RFC 8259 accepts both). */
  function HexValue(c: char): (r: Option<nat>)
    ensures r.Some? ==> r.value < 16
  {
    if '0' <= c <= '9' then Some(c as nat - 48)
    else if 'a' <= c <= 'f' then Some(c as nat - 87)
    else if 'A' <= c <= 'F' then Some(c as nat - 55)
    else None
  }

  lemma HexDigitValue(n: nat)
    requires n < 16
    ensures HexValue(HexDigit(n)) == Some(n)
  {
  }

  /** How serde_json writes one character inside a string literal. */
  function EscapeChar(c: char): string {
    if c == '"' then "\\\""
    else if c == '\\' then "\\\\"
    else if c == '\U{8}' then "\\b"
    else if c == '\U{C}' then "\\f"
    else if c == '\n' then "\\n"
    else if c == '\r' then "\\r"
    else if c == '\t' then "\\t"
    else if c < ' ' then "\\u00" + [HexDigit(c as nat / 16), HexDigit(c as nat % 16)]
    else [c]
  }

  function Escape(s: string): string {
    if s == [] then [] else EscapeChar(s[0]) + Escape(s[1..])
  }

  /** A string literal: the escaped text between double quotes. */
  function Quote(s: string): string {
    "\"" + Escape(s) + "\""
  }

  /** `order` enumerates the keys of `env`, each once: the iteration order of the hash map. */
  predicate ListsKeys(order: seq<string>, env: map<string, string>) {
    && (forall k :: k in order ==> k in env)
    && (forall k :: k in env ==> k in order)
    && (forall i, j :: 0 <= i < j < |order| ==> order[i] != order[j])
  }

  /** One member `"k":"v"`. */
  function Member(k: string, v: string): string {
    Quote(k) + ":" + Quote(v)
  }

  function Members(env: map<string, string>, order: seq<string>): string
    requires forall k :: k in order ==> k in env
  {
    if order == [] then []
    else Member(order[0], env[order[0]]) + (if |order| == 1 then [] else "," + Members(env, order[1..]))
  }

  /** `serde_json::to_string(&public_env)`, members in the map's iteration order. */
  function Serialize(env: map<string, string>, order: seq<string>): string
    requires ListsKeys(order, env)
  {
    "{" + Members(env, order) + "}"
  }

  // ----- reading the text back -----

  /** The escape sequence after a backslash: the character it stands for and its length. */
  function ParseEscape(s: string): (r: Option<(char, nat)>)
    ensures r.Some? ==> 1 <= r.value.1 <= |s|
  {
    if s == [] then None
    else if s[0] == '"' then Some(('"', 1))
    else if s[0] == '\\' then Some(('\\', 1))
    else if s[0] == '/' then Some(('/', 1))
    else if s[0] == 'b' then Some(('\U{8}', 1))
    else if s[0] == 'f' then Some(('\U{C}', 1))
    else if s[0] == 'n' then Some(('\n', 1))
    else if s[0] == 'r' then Some(('\r', 1))
    else if s[0] == 't' then Some(('\t', 1))
    else if s[0] == 'u' && |s| >= 5 then
      var d := [HexValue(s[1]), HexValue(s[2]), HexValue(s[3]), HexValue(s[4])];
      if d[0].Some? && d[1].Some? && d[2].Some? && d[3].Some? then
        var code := d[0].value * 4096 + d[1].value * 256 + d[2].value * 16 + d[3].value;
        // a lone surrogate names no character
        if 0xD800 <= code < 0xE000 then None else Some((code as char, 5))
      else None
    else None
  }

  function Prepend(c: char, r: Option<(string, string)>): Option<(string, string)> {
    match r
    case None => None
    case Some((t, rest)) => Some(([c] + t, rest))
  }

  /**
   * The body of a string literal up to its closing quote: the decoded text
   * and what follows the quote. Raw control characters are refused.
   */
  function ParseBody(s: string): (r: Option<(string, string)>)
    ensures r.Some? ==> |r.value.1| < |s|
    decreases |s|
  {
    if s == [] then None
    else if s[0] == '"' then Some(([], s[1..]))
    else if s[0] == '\\' then
      match ParseEscape(s[1..])
      case None => None
      case Some((c, n)) => Prepend(c, ParseBody(s[1 + n..]))
    else if s[0] < ' ' then None
    else Prepend(s[0], ParseBody(s[1..]))
  }

  /** The members of an object after its `{`, up to and including the closing `}`. */
  function ParseMembers(s: string): Option<seq<(string, string)>>
    decreases |s|, 1
  {
    if s == [] || s[0] != '"' then None
    else match ParseBody(s[1..])
      case None => None
      case Some((k, r1)) =>
        if |r1| < 2 || r1[0] != ':' || r1[1] != '"' then None
        else match ParseBody(r1[2..])
          case None => None
          case Some((v, r2)) => if |r2| < |s| then MoreMembers(k, v, r2) else None
  }

  /** After the member `k`, `v`: the end of the object, or a comma and further members. */
  function MoreMembers(k: string, v: string, s: string): Option<seq<(string, string)>>
    decreases |s|, 0
  {
    if s == "}" then Some([(k, v)])
    else if s != [] && s[0] == ',' then
      match ParseMembers(s[1..])
      case None => None
      case Some(rest) => Some([(k, v)] + rest)
    else None
  }

  /** An object text `{}` or `{"k":"v",...}` with nothing after it. */
  function ParseObject(s: string): Option<seq<(string, string)>> {
    if s == "{}" then Some([])
    else if s != [] && s[0] == '{' then ParseMembers(s[1..])
    else None
  }

  /** The members a reader takes from the object, in order. */
  function Pairs(env: map<string, string>, order: seq<string>): (ps: seq<(string, string)>)
    requires forall k :: k in order ==> k in env
    ensures |ps| == |order|
    ensures forall i :: 0 <= i < |order| ==> ps[i] == (order[i], env[order[i]])
  {
    seq(|order|, i requires 0 <= i < |order| => (order[i], env[order[i]]))
  }

  /** The map a list of members denotes; a later duplicate wins. */
  function ToMap(ps: seq<(string, string)>): map<string, string> {
    if ps == [] then map[] else ToMap(ps[..|ps| - 1])[ps[|ps| - 1].0 := ps[|ps| - 1].1]
  }

  // ----- round trip -----

  lemma EscapeCharStep(c: char, tail: string)
    ensures ParseBody(EscapeChar(c) + tail) == Prepend(c, ParseBody(tail))
  {
    if c < ' ' && c != '\U{8}' && c != '\U{C}' && c != '\n' && c != '\r' && c != '\t' {
      ControlStep(c, tail);
    } else if c == '"' || c == '\\' || c < ' ' {
      ShortStep(c, tail);
    } else {
      var s := EscapeChar(c) + tail;
      assert EscapeChar(c) == [c];
      assert s[1..] == tail;
    }
  }

  /** A character with a two-character escape comes back from it. */
  lemma ShortStep(c: char, tail: string)
    requires c == '"' || c == '\\' || c == '\U{8}' || c == '\U{C}' || c == '\n' || c == '\r' || c == '\t'
    ensures ParseBody(EscapeChar(c) + tail) == Prepend(c, ParseBody(tail))
  {
    var s := EscapeChar(c) + tail;
    assert |EscapeChar(c)| == 2 && s[0] == '\\';
    assert ParseEscape(s[1..]) == Some((c, 1));
    assert s[2..] == tail;
  }

  /** A control character without a short escape comes back from its `\u00XX` form. */
  lemma ControlStep(c: char, tail: string)
    requires c < ' ' && c != '\U{8}' && c != '\U{C}' && c != '\n' && c != '\r' && c != '\t'
    ensures ParseBody(EscapeChar(c) + tail) == Prepend(c, ParseBody(tail))
  {
    var s := EscapeChar(c) + tail;
    var hi, lo := c as nat / 16, c as nat % 16;
    HexDigitValue(hi);
    HexDigitValue(lo);
    assert s[1..] == "u00" + [HexDigit(hi), HexDigit(lo)] + tail;
    assert ParseEscape(s[1..]) == Some((c, 5));
    assert s[6..] == tail;
  }

  lemma {:induction false} BodyRoundTrip(x: string, rest: string)
    ensures ParseBody(Escape(x) + "\"" + rest) == Some((x, rest))
    decreases |x|
  {
    if x == [] {
      assert Escape(x) + "\"" + rest == "\"" + rest;
      assert ("\"" + rest)[1..] == rest;
    } else {
      assert Escape(x) + "\"" + rest == EscapeChar(x[0]) + (Escape(x[1..]) + "\"" + rest);
      EscapeCharStep(x[0], Escape(x[1..]) + "\"" + rest);
      BodyRoundTrip(x[1..], rest);
      assert [x[0]] + x[1..] == x;
    }
  }

  /** A quoted literal followed by `tail` reads back as its text and `tail`. */
  lemma QuoteRoundTrip(x: string, tail: string)
    ensures (Quote(x) + tail)[0] == '"'
    ensures ParseBody((Quote(x) + tail)[1..]) == Some((x, tail))
  {
    assert (Quote(x) + tail)[1..] == Escape(x) + "\"" + tail;
    BodyRoundTrip(x, tail);
  }

  lemma MemberRoundTrip(k: string, v: string, more: string)
    requires more != []
    ensures ParseMembers(Member(k, v) + more) == MoreMembers(k, v, more)
  {
    var s := Member(k, v) + more;
    var r1 := ":" + (Quote(v) + more);
    MemberShape(k, v, more);
    QuoteRoundTrip(k, r1);
    QuoteRoundTrip(v, more);
    MembersStep(s, k, r1, v, more);
  }

  /** A member text followed by `more` is the quoted key, then `:` and the quoted value before `more`. */
  lemma MemberShape(k: string, v: string, more: string)
    ensures var r1 := ":" + (Quote(v) + more);
      && Member(k, v) + more == Quote(k) + r1
      && |r1| >= 2 && r1[0] == ':' && r1[1] == '"' && r1[2..] == (Quote(v) + more)[1..]
      && |more| < |Member(k, v) + more|
  {
    var r1 := ":" + (Quote(v) + more);
    assert r1[2..] == (Quote(v) + more)[1..];
  }

  /** One member read: a key, a `:`, a value, then the rest. */
  lemma MembersStep(s: string, k: string, r1: string, v: string, more: string)
    requires s != [] && s[0] == '"' && ParseBody(s[1..]) == Some((k, r1))
    requires |r1| >= 2 && r1[0] == ':' && r1[1] == '"' && ParseBody(r1[2..]) == Some((v, more))
    requires |more| < |s|
    ensures ParseMembers(s) == MoreMembers(k, v, more)
  {
  }

  lemma {:induction false} MembersRoundTrip(env: map<string, string>, order: seq<string>)
    requires forall k :: k in order ==> k in env
    requires order != []
    ensures ParseMembers(Members(env, order) + "}") == Some(Pairs(env, order))
    decreases |order|
  {
    var k := order[0];
    var v := env[k];
    MembersHead(env, order);
    if |order| == 1 {
      MemberRoundTrip(k, v, "}");
      assert Pairs(env, order[1..]) == [];
      assert Pairs(env, order) == [(k, v)];
    } else {
      MemberRoundTrip(k, v, "," + (Members(env, order[1..]) + "}"));
      MembersRoundTrip(env, order[1..]);
    }
  }

  /** The members text is the first member and then, after a comma, the others. */
  lemma MembersHead(env: map<string, string>, order: seq<string>)
    requires forall k :: k in order ==> k in env
    requires order != []
    ensures |order| == 1 ==> Members(env, order) + "}" == Member(order[0], env[order[0]]) + "}"
    ensures |order| > 1 ==> var more := "," + (Members(env, order[1..]) + "}");
      && Members(env, order) + "}" == Member(order[0], env[order[0]]) + more
      && more[1..] == Members(env, order[1..]) + "}"
    ensures Pairs(env, order) == [(order[0], env[order[0]])] + Pairs(env, order[1..])
  {
    if |order| > 1 {
      var more := "," + (Members(env, order[1..]) + "}");
      assert more[1..] == Members(env, order[1..]) + "}";
    }
    PairsHead(env, order);
  }

  lemma PairsHead(env: map<string, string>, order: seq<string>)
    requires forall k :: k in order ==> k in env
    requires order != []
    ensures Pairs(env, order) == [(order[0], env[order[0]])] + Pairs(env, order[1..])
  {
    var ps, tail := Pairs(env, order), Pairs(env, order[1..]);
    assert forall i :: 1 <= i < |ps| ==> ps[i] == tail[i - 1];
  }

  lemma {:induction false} ToMapPairs(env: map<string, string>, order: seq<string>)
    requires forall k :: k in order ==> k in env
    ensures ToMap(Pairs(env, order)) == map k | k in order :: env[k]
    decreases |order|
  {
    if order != [] {
      var n := |order| - 1;
      assert Pairs(env, order)[..n] == Pairs(env, order[..n]);
      ToMapPairs(env, order[..n]);
      assert order == order[..n] + [order[n]];
    }
  }

  /**
   * The serialised object reads back as the members in iteration order,
   * and those members denote exactly the resolved map.
   */
  lemma SerializeRoundTrip(env: map<string, string>, order: seq<string>)
    requires ListsKeys(order, env)
    ensures ParseObject(Serialize(env, order)) == Some(Pairs(env, order))
    ensures ToMap(Pairs(env, order)) == env
  {
    SerializeShape(env, order);
    if order != [] {
      MembersRoundTrip(env, order);
    }
    ToMapPairs(env, order);
  }

  /** The object text is `{}` for no members, and otherwise `{`, the members and `}`. */
  lemma SerializeShape(env: map<string, string>, order: seq<string>)
    requires ListsKeys(order, env)
    ensures order == [] ==> Serialize(env, order) == "{}"
    ensures order != [] ==> var s := Serialize(env, order);
      s != "{}" && s != [] && s[0] == '{' && s[1..] == Members(env, order) + "}"
  {
    if order != [] {
      var m := Members(env, order);
      assert |m| >= |Member(order[0], env[order[0]])| >= 2;
      ObjectText(m);
    }
  }

  lemma ObjectText(m: string)
    requires |m| >= 2
    ensures var s := "{" + m + "}";
      s != "{}" && s != [] && s[0] == '{' && s[1..] == m + "}"
  {
    var s := "{" + m + "}";
    assert |s| > 2;
    assert s[1..] == m + "}";
  }

  // ----- shape of the text -----

  /** The object text is `{}` exactly when no variable was resolved. */
  lemma SerializeEmpty(env: map<string, string>, order: seq<string>)
    requires ListsKeys(order, env)
    ensures Serialize(env, order) == "{}" <==> env == map[]
  {
    if order != [] {
      assert order[0] in env;
      assert Serialize(env, order)[1] == '"';
    } else {
      assert env.Keys == {};
    }
  }

  lemma SerializeBraced(env: map<string, string>, order: seq<string>)
    requires ListsKeys(order, env)
    ensures var json := Serialize(env, order); |json| >= 2 && json[0] == '{' && json[|json| - 1] == '}'
  {
  }

  /** Escaping introduces no `$`. */
  lemma {:induction false} EscapeDollar(s: string)
    requires '$' !in s
    ensures '$' !in Escape(s)
    decreases |s|
  {
    if s != [] {
      EscapeDollar(s[1..]);
    }
  }

  lemma {:induction false} MembersDollar(env: map<string, string>, order: seq<string>)
    requires forall k :: k in order ==> k in env && '$' !in k && '$' !in env[k]
    ensures '$' !in Members(env, order)
    decreases |order|
  {
    if order != [] {
      EscapeDollar(order[0]);
      EscapeDollar(env[order[0]]);
      MembersDollar(env, order[1..]);
    }
  }

  /** A `$` appears in the serialised object only if a key or value holds one. */
  lemma SerializeDollar(env: map<string, string>, order: seq<string>)
    requires ListsKeys(order, env)
    requires forall k :: k in env ==> '$' !in k && '$' !in env[k]
    ensures '$' !in Serialize(env, order)
  {
    MembersDollar(env, order);
  }

  /** A character serde_json writes as it is. */
  predicate Plain(c: char) {
    ' ' <= c && c != '"' && c != '\\'
  }

  lemma {:induction false} EscapePlain(s: string)
    requires forall i :: 0 <= i < |s| ==> Plain(s[i])
    ensures Escape(s) == s
    decreases |s|
  {
    if s != [] {
      EscapePlain(s[1..]);
      assert s == [s[0]] + s[1..];
    }
  }

  /** A one-variable map whose name and value need no escaping is written `{"k":"v"}`. */
  lemma SerializeSingle(k: string, v: string)
    requires forall i :: 0 <= i < |k| ==> Plain(k[i])
    requires forall i :: 0 <= i < |v| ==> Plain(v[i])
    ensures ListsKeys([k], map[k := v])
    ensures Serialize(map[k := v], [k]) == "{\"" + k + "\":\"" + v + "\"}"
  {
    var env := map[k := v];
    assert Members(env, [k]) == Member(k, v) + [];
    EscapePlain(k);
    EscapePlain(v);
    SingleObjectText(k, v, Quote(k), Quote(v));
  }

  lemma SingleObjectText(k: string, v: string, qk: string, qv: string)
    requires qk == "\"" + k + "\"" && qv == "\"" + v + "\""
    ensures "{" + (qk + ":" + qv + []) + "}" == "{\"" + k + "\":\"" + v + "\"}"
  {
  }
}
