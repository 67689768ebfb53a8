/** Python-level values and string helpers the retrieval engine relies on:
    attribute dictionaries, truthiness, `str.strip()` blankness, `str.join`,
    `str(n)`, `str.capitalize()` and string repetition. */
module PyValues {

  datatype Option<+T> = None | Some(value: T)

  /** A value stored in a node or edge attribute dictionary. */
  datatype Value = Str(s: string) | Int(i: int) | Nil

  /** A Python attribute dictionary (`G.nodes[id]`, `G[u][v]`). */
  type Attrs = map<string, Value>

  /** `d.get(k)`: the stored value, or None when the key is missing. */
  function Get(d: Attrs, k: string): (r: Value)
    ensures k !in d ==> r == Nil
    ensures k in d ==> r == d[k]
  {
    if k in d then d[k] else Nil
  }

  /** `d.get(k, default)`. */
  function GetOr(d: Attrs, k: string, default: Value): (r: Value)
    ensures k !in d ==> r == default
    ensures k in d ==> r == d[k]
  {
    if k in d then d[k] else default
  }

  /** Python truthiness of a stored value. */
  predicate Truthy(v: Value) {
    match v
    case Str(s) => s != ""
    case Int(i) => i != 0
    case Nil => false
  }

  /** `str(n)` for an integer. */
  function IntToString(n: int): (r: string)
    ensures r != []
    ensures n >= 0 ==> forall i :: 0 <= i < |r| ==> '0' <= r[i] <= '9'
  {
    if n < 0 then "-" + NatToString(-n) else NatToString(n)
  }

  function NatToString(n: nat): (r: string)
    ensures r != []
    ensures forall i :: 0 <= i < |r| ==> '0' <= r[i] <= '9'
    decreases n
  {
    var digit := ['0' + (n % 10) as char];
    if n < 10 then digit else NatToString(n / 10) + digit
  }

  /** How an f-string renders a stored value. */
  function Render(v: Value): string {
    match v
    case Str(s) => s
    case Int(i) => IntToString(i)
    case Nil => "None"
  }

  /** How an f-string renders an optional identifier (`None` for null). */
  function RenderOpt(o: Option<string>): (r: string)
    ensures o.Some? ==> r == o.value
    ensures o.None? ==> r == "None"
  {
    match o
    case Some(s) => s
    case None => "None"
  }

  /** Characters removed by Python's `str.strip()` (those for which `str.isspace()` holds). */
  predicate IsSpace(c: char) {
    var n := c as int;
    (9 <= n <= 13) || (28 <= n <= 32) || n == 0x85 || n == 0xA0 || n == 0x1680
    || (0x2000 <= n <= 0x200A) || n == 0x2028 || n == 0x2029 || n == 0x202F
    || n == 0x205F || n == 0x3000
  }

  /** `not s.strip()`: the string is empty after stripping whitespace. */
  predicate IsBlank(s: string) {
    forall i :: 0 <= i < |s| ==> IsSpace(s[i])
  }

  /** `sep.join(parts)`. */
  function Join(sep: string, parts: seq<string>): (r: string)
    ensures parts == [] ==> r == ""
    ensures |parts| == 1 ==> r == parts[0]
    ensures |parts| > 0 ==> parts[0] <= r
    decreases |parts|
  {
    if parts == [] then ""
    else if |parts| == 1 then parts[0]
    else parts[0] + sep + Join(sep, parts[1..])
  }

  /** A string beginning with a non-space character is not blank. */
  lemma NonBlankFromFirst(s: string)
    requires s != [] && !IsSpace(s[0])
    ensures !IsBlank(s)
  {
  }

  /** The joined text of a non-empty list of parts, the first of which starts with a
      non-space character, is not blank; the join of no parts is blank. */
  lemma {:induction false} JoinBlank(sep: string, parts: seq<string>)
    requires parts != [] ==> parts[0] != [] && !IsSpace(parts[0][0])
    ensures IsBlank(Join(sep, parts)) <==> parts == []
  {
    if parts != [] {
      var r := Join(sep, parts);
      assert parts[0] <= r;
      assert r[0] == parts[0][0];
      NonBlankFromFirst(r);
    }
  }

  /** Python's `sub in s` on strings. */
  predicate Contains(s: string, sub: string)
    decreases |s|
  {
    sub <= s || (|s| > 0 && Contains(s[1..], sub))
  }

  /** A prefix of a string is contained in it. */
  lemma PrefixContained(sub: string, rest: string)
    ensures Contains(sub + rest, sub)
  {
    assert sub <= sub + rest;
  }

  /** A string occurring anywhere inside another is contained in it. */
  lemma {:induction false} InfixContained(pre: string, sub: string, post: string)
    ensures Contains(pre + sub + post, sub)
    decreases |pre|
  {
    if pre == [] {
      assert pre + sub + post == sub + post;
      PrefixContained(sub, post);
    } else {
      assert (pre + sub + post)[1..] == pre[1..] + sub + post;
      InfixContained(pre[1..], sub, post);
    }
  }

  /** ASCII `upper()` and `lower()` of one character; other characters are left alone. */
  function UpperChar(c: char): char {
    if 'a' <= c <= 'z' then (c as int - 32) as char else c
  }

  function LowerChar(c: char): char {
    if 'A' <= c <= 'Z' then (c as int + 32) as char else c
  }

  function Lower(s: string): (r: string)
    ensures |r| == |s|
    ensures forall i :: 0 <= i < |s| ==> r[i] == LowerChar(s[i])
  {
    if s == [] then [] else [LowerChar(s[0])] + Lower(s[1..])
  }

  /** `s.capitalize()`: first character upper-cased, the rest lower-cased. */
  function Capitalize(s: string): (r: string)
    ensures |r| == |s|
    ensures s != [] ==> r[0] == UpperChar(s[0])
    ensures forall i :: 0 < i < |s| ==> r[i] == LowerChar(s[i])
  {
    if s == [] then [] else [UpperChar(s[0])] + Lower(s[1..])
  }

  /** `s * n` for a string and an integer (empty when `n <= 0`). */
  function Repeat(s: string, n: int): (r: string)
    ensures n <= 0 ==> r == ""
    ensures n > 0 ==> |r| == |s| * n
    decreases if n <= 0 then 0 else n
  {
    if n <= 0 then "" else s + Repeat(s, n - 1)
  }
}
