/** Doctor names as typed into the entry box: Python's `str.strip()` and the
    roster's unique-name rule. */
module Names {

  /** The characters for which Python's `str.isspace()` holds, the ones
      `str.strip()` removes when called without arguments. */
  predicate IsSpace(c: char) {
    || '\t' <= c <= '\r'
    || '\U{1C}' <= c <= '\U{1F}'
    || c == ' ' || c == '\U{85}' || c == '\U{A0}' || c == '\U{1680}'
    || '\U{2000}' <= c <= '\U{200A}'
    || c == '\U{2028}' || c == '\U{2029}' || c == '\U{202F}' || c == '\U{205F}'
    || c == '\U{3000}'
  }

  /** `s` with its leading whitespace removed. */
  function TrimStart(s: string): (r: string)
    ensures |r| <= |s| && r == s[|s| - |r|..]
    ensures forall i :: 0 <= i < |s| - |r| ==> IsSpace(s[i])
    ensures r == [] || !IsSpace(r[0])
  {
    if |s| > 0 && IsSpace(s[0]) then TrimStart(s[1..]) else s
  }

  /** `s` with its trailing whitespace removed. */
  function TrimEnd(s: string): (r: string)
    ensures |r| <= |s| && r == s[..|r|]
    ensures forall i :: |r| <= i < |s| ==> IsSpace(s[i])
    ensures r == [] || !IsSpace(r[|r| - 1])
  {
    if |s| > 0 && IsSpace(s[|s| - 1]) then TrimEnd(s[..|s| - 1]) else s
  }

  /** Python's `s.strip()`: the longest infix of `s` that neither starts nor
      ends with whitespace, reached by dropping only whitespace. */
  function Strip(s: string): (r: string)
    ensures |r| <= |s|
    ensures r == [] || (!IsSpace(r[0]) && !IsSpace(r[|r| - 1]))
  {
    TrimEnd(TrimStart(s))
  }

  /** A stripped entry is empty exactly when the entry is all whitespace:
      these are the names the roster rejects as empty. */
  lemma StripEmpty(s: string)
    ensures Strip(s) == [] <==> forall i :: 0 <= i < |s| ==> IsSpace(s[i])
  {
    var t := TrimStart(s);
    if t != [] {
      assert t[0] == s[|s| - |t|] && !IsSpace(t[0]);
    }
  }

  /** Python's promise for `str.strip()`: the result is the contiguous
      piece of `s` starting after the leading whitespace, and every
      character outside that piece is whitespace. */
  lemma {:induction false} StripIsInfix(s: string)
    ensures var a := |s| - |TrimStart(s)|;
      && a + |Strip(s)| <= |s|
      && Strip(s) == s[a..a + |Strip(s)|]
      && forall i :: 0 <= i < |s| && !(a <= i < a + |Strip(s)|) ==> IsSpace(s[i])
  {
    var t := TrimStart(s);
    var r := TrimEnd(t);
    assert r == Strip(s);
    TrimmedPieceIsInfix(s, t, r);
  }

  /** A prefix `r` of a suffix `t` of `s`, where everything cut off on
      either side is whitespace, is an infix of `s` with only whitespace
      around it. */
  lemma {:induction false} TrimmedPieceIsInfix(s: string, t: string, r: string)
    requires |t| <= |s| && t == s[|s| - |t|..]
    requires forall i :: 0 <= i < |s| - |t| ==> IsSpace(s[i])
    requires |r| <= |t| && r == t[..|r|]
    requires forall j :: |r| <= j < |t| ==> IsSpace(t[j])
    ensures var a := |s| - |t|;
      && r == s[a..a + |r|]
      && forall i :: 0 <= i < |s| && !(a <= i < a + |r|) ==> IsSpace(s[i])
  {
    var a := |s| - |t|;
    forall i | 0 <= i < |s| && !(a <= i < a + |r|) ensures IsSpace(s[i]) {
      if i >= a {
        assert s[i] == t[i - a];
      }
    }
  }

  /** Stripping twice is stripping once. */
  lemma StripIdempotent(s: string)
    ensures Strip(Strip(s)) == Strip(s)
  {
    var r := Strip(s);
    assert TrimStart(r) == r;
    assert TrimEnd(r) == r;
  }

  /** No name occurs twice in `names`. */
  predicate Unique(names: seq<string>) {
    forall i, j :: 0 <= i < j < |names| ==> names[i] != names[j]
  }

  /** Some position other than `index` holds `name`. */
  predicate HeldElsewhere(names: seq<string>, index: int, name: string) {
    exists i :: 0 <= i < |names| && i != index && names[i] == name
  }

  /** Appending a name that is not yet present keeps the names unique. */
  lemma AppendKeepsUnique(names: seq<string>, name: string)
    requires Unique(names) && name !in names
    ensures Unique(names + [name])
  {
    var s := names + [name];
    forall i, j | 0 <= i < j < |s| ensures s[i] != s[j] {
      if j == |names| {
        assert s[i] == names[i];
      } else {
        assert s[i] == names[i] && s[j] == names[j];
      }
    }
  }

  /** Putting at `index` a name that no other position holds keeps the
      names unique. */
  lemma ReplaceKeepsUnique(names: seq<string>, index: int, name: string)
    requires 0 <= index < |names|
    requires Unique(names) && !HeldElsewhere(names, index, name)
    ensures Unique(names[index := name])
  {
    var s := names[index := name];
    forall i, j | 0 <= i < j < |s| ensures s[i] != s[j] {
      if i == index {
        assert s[j] == names[j];
      } else if j == index {
        assert s[i] == names[i];
      } else {
        assert s[i] == names[i] && s[j] == names[j];
      }
    }
  }
}
