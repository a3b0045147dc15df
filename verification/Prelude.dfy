/** What several modules need. */
module Prelude {
  datatype Option<+T> = None | Some(value: T)

  predicate SlashFree(s: string) {
    '/' !in s
  }

  /** A C string ends at its first NUL. */
  function CStr(v: string): string {
    if v == "" || v[0] == '\0' then "" else [v[0]] + CStr(v[1..])
  }

  lemma {:induction false} CStrNulFree(v: string)
    requires '\0' !in v
    ensures CStr(v) == v
  {
    if v != "" { CStrNulFree(v[1..]); }
  }

  /** It has no NUL and ends at the first one, or is the whole. */
  lemma {:induction false} CStrIs(v: string)
    ensures var r := CStr(v); r <= v && '\0' !in r && (|r| < |v| ==> v[|r|] == '\0')
  {
    if v != "" && v[0] != '\0' {
      CStrIs(v[1..]);
      assert v == [v[0]] + v[1..];
    }
  }

  /** The path made of components. */
  function Joined(cs: seq<string>): string {
    if cs == [] then "" else "/" + cs[0] + Joined(cs[1..])
  }

  lemma Assoc<T>(a: seq<T>, b: seq<T>, c: seq<T>)
    ensures a + (b + c) == a + b + c
  {
  }
}
