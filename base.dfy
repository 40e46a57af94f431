/**
 * Python built-ins and pathlib rules the application relies on, stated over
 * Dafny strings: `str(n)` for a monitor index, slicing, `split(...)[0]`,
 * ASCII lower-casing, `os.path.basename` and `Path(p).parent`.
 */
module Base {

  datatype Option<+T> = None | Some(value: T) {
    function GetOr(default: T): T {
      match this
      case Some(v) => v
      case None => default
    }
  }

  datatype Result<+T, +E> = Success(value: T) | Failure(error: E)

  /** Python truthiness of an optional string: present and non-empty. */
  predicate Truthy(s: Option<string>) {
    s.Some? && s.value != ""
  }

  function Digit(d: nat): (c: char)
    requires d < 10
    ensures '0' <= c <= '9'
  {
    ('0' as int + d) as char
  }

  /** `str(n)` for a natural number: its decimal digits, without leading zeros. */
  function NatToString(n: nat): (s: string)
    ensures 1 <= |s|
    ensures |s| == 1 <==> n < 10
    ensures forall k :: 0 <= k < |s| ==> '0' <= s[k] <= '9'
    ensures s[|s| - 1] == Digit(n % 10)
  {
    if n < 10 then [Digit(n)] else NatToString(n / 10) + [Digit(n % 10)]
  }

  /** Distinct indices give distinct keys: `str` is injective on naturals. */
  lemma {:induction false} NatToStringInjective(a: nat, b: nat)
    requires NatToString(a) == NatToString(b)
    ensures a == b
  {
    var s := NatToString(a);
    assert Digit(a % 10) == Digit(b % 10);
    assert a % 10 == b % 10;
    if a >= 10 && b >= 10 {
      assert NatToString(a / 10) == s[..|s| - 1] == NatToString(b / 10);
      NatToStringInjective(a / 10, b / 10);
    }
  }

  /** Python's `s[:n]`. */
  function Take(s: string, n: nat): (r: string)
    ensures |r| <= n && |r| <= |s|
    ensures r == s[..|r|]
    ensures |s| <= n ==> r == s
  {
    if |s| <= n then s else s[..n]
  }

  /** `s.split(sep)[0]`: the text before the first `sep`, or all of `s`. */
  function BeforeFirst(s: string, sep: char): (r: string)
    ensures |r| <= |s| && r == s[..|r|]
    ensures sep !in r
    ensures |r| < |s| ==> s[|r|] == sep
  {
    if s == [] then []
    else if s[0] == sep then []
    else [s[0]] + BeforeFirst(s[1..], sep)
  }

  /** Index of the last `c` in `s`, or -1 (Python's `rfind`). */
  function LastIndexOf(s: string, c: char): (i: int)
    ensures -1 <= i < |s|
    ensures 0 <= i ==> s[i] == c
    ensures forall k :: i < k < |s| ==> s[k] != c
  {
    if s == [] then -1
    else if s[|s| - 1] == c then |s| - 1
    else LastIndexOf(s[..|s| - 1], c)
  }

  function LowerChar(c: char): char {
    if 'A' <= c <= 'Z' then (c as int + 32) as char else c
  }

  /** `s.lower()` for ASCII letters. */
  function AsciiLower(s: string): (r: string)
    ensures |r| == |s|
    ensures forall k :: 0 <= k < |s| ==> r[k] == LowerChar(s[k])
  {
    seq(|s|, k requires 0 <= k < |s| => LowerChar(s[k]))
  }

  predicate StartsWith(s: string, prefix: string) {
    |prefix| <= |s| && s[..|prefix|] == prefix
  }

  /** `os.path.basename(p)`: the text after the last '/'. */
  function Basename(p: string): (r: string)
    ensures '/' !in r
    ensures |r| <= |p| && r == p[|p| - |r|..]
  {
    p[LastIndexOf(p, '/') + 1..]
  }

  /** `str(Path(p).parent)`: text before the last '/', "/" for a file at the root, "." when there is no '/'. */
  function Parent(p: string): (r: string)
    ensures r == "." || r == "/" || (|r| < |p| && r == p[..|r|] && p[|r|] == '/')
  {
    var i := LastIndexOf(p, '/');
    if i < 0 then "." else if i == 0 then "/" else p[..i]
  }

  /** `str(Path(dir) / name)` for a plain name and a normalised directory (no trailing '/' except the root). */
  function Join(dir: string, name: string): (r: string)
    ensures |name| < |r| && r[|r| - |name|..] == name
  {
    if dir == "/" then "/" + name else dir + "/" + name
  }

  /** A file joined onto a non-empty directory has that directory as parent and its own name as basename. */
  lemma JoinSplits(dir: string, name: string)
    requires dir != "" && '/' !in name
    ensures Parent(Join(dir, name)) == dir
    ensures Basename(Join(dir, name)) == name
  {
    var p := Join(dir, name);
    var i := if dir == "/" then 0 else |dir|;
    assert p[i] == '/';
    assert forall k :: i < k < |p| ==> p[k] == name[k - i - 1];
    assert LastIndexOf(p, '/') == i;
    assert p[i + 1..] == name;
    if dir != "/" {
      assert p[..i] == dir;
    }
  }

  /** Regrouping an append, stated once so that callers need not reason about every element. */
  lemma AppendAssociates<T>(a: seq<T>, b: seq<T>, c: seq<T>)
    ensures (a + b) + c == a + (b + c)
  {
  }
}
