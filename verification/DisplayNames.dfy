/** Display names: trimmed of surrounding white space and lower-cased before they reach a table. */
module DisplayNames {

  predicate IsSpace(c: char) { c == ' ' || '\t' <= c <= '\r' }

  function ToLower(c: char): char { if 'A' <= c <= 'Z' then (c as int + 32) as char else c }

  function TrimLeft(s: string): string {
    if s != "" && IsSpace(s[0]) then TrimLeft(s[1..]) else s
  }

  function TrimRight(s: string): string {
    if s != "" && IsSpace(s[|s| - 1]) then TrimRight(s[..|s| - 1]) else s
  }

  function Lower(s: string): (r: string)
    ensures |r| == |s|
    ensures forall i :: 0 <= i < |s| ==> r[i] == ToLower(s[i])
  {
    if s == "" then "" else [ToLower(s[0])] + Lower(s[1..])
  }

  function Normalize(s: string): string { Lower(TrimRight(TrimLeft(s))) }

  predicate AllSpace(s: string) { forall i :: 0 <= i < |s| ==> IsSpace(s[i]) }

  /** No white space at either end and no capital letter. */
  predicate NormalForm(s: string) {
    && (s != "" ==> !IsSpace(s[0]) && !IsSpace(s[|s| - 1]))
    && forall i :: 0 <= i < |s| ==> !('A' <= s[i] <= 'Z')
  }

  /** Trimming cuts white space, and only that, off both ends. */
  lemma {:induction false} TrimLeftCuts(s: string) returns (pad: string)
    ensures s == pad + TrimLeft(s) && AllSpace(pad)
    ensures TrimLeft(s) != "" ==> !IsSpace(TrimLeft(s)[0])
  {
    if s != "" && IsSpace(s[0]) {
      var rest := TrimLeftCuts(s[1..]);
      pad := [s[0]] + rest;
      assert s == [s[0]] + s[1..];
    } else {
      pad := "";
    }
  }

  lemma {:induction false} TrimRightCuts(s: string) returns (pad: string)
    ensures s == TrimRight(s) + pad && AllSpace(pad)
    ensures TrimRight(s) != "" ==> !IsSpace(TrimRight(s)[|TrimRight(s)| - 1])
  {
    if s != "" && IsSpace(s[|s| - 1]) {
      var rest := TrimRightCuts(s[..|s| - 1]);
      pad := rest + [s[|s| - 1]];
      assert s == s[..|s| - 1] + [s[|s| - 1]];
    } else {
      pad := "";
    }
  }

  lemma {:induction false} TrimLeftDrops(pad: string, s: string)
    requires AllSpace(pad)
    ensures TrimLeft(pad + s) == TrimLeft(s)
  {
    if pad == "" {
      assert pad + s == s;
    } else {
      assert (pad + s)[1..] == pad[1..] + s;
      TrimLeftDrops(pad[1..], s);
    }
  }

  lemma {:induction false} TrimRightDrops(s: string, pad: string)
    requires AllSpace(pad)
    ensures TrimRight(s + pad) == TrimRight(s)
  {
    if pad == "" {
      assert s + pad == s;
    } else {
      assert (s + pad)[..|s + pad| - 1] == s + pad[..|pad| - 1];
      TrimRightDrops(s, pad[..|pad| - 1]);
    }
  }

  /** What normalisation returns is in normal form, and exactly the normal forms are left alone. */
  lemma NormalizeIdempotent(s: string)
    ensures NormalForm(Normalize(s))
    ensures Normalize(s) == s <==> NormalForm(s)
    ensures Normalize(Normalize(s)) == Normalize(s)
  {
    NormalizeNormal(s);
    FixedIfNormal(Normalize(s));
    if NormalForm(s) {
      FixedIfNormal(s);
    }
  }

  lemma NormalizeNormal(s: string)
    ensures NormalForm(Normalize(s))
  {
    var padL := TrimLeftCuts(s);
    var l := TrimLeft(s);
    var padR := TrimRightCuts(l);
    var m := TrimRight(l);
    hide TrimLeft, TrimRight, Lower;
    if m != "" {
      assert m[0] == l[0];
    }
  }

  lemma FixedIfNormal(s: string)
    requires NormalForm(s)
    ensures Normalize(s) == s
  {
    assert TrimRight(TrimLeft(s)) == s;
    hide Lower;
    assert Lower(s) == s;
  }

  /** White space around a name is not seen, whatever the name. */
  lemma NormalizeIgnoresPadding(padL: string, s: string, padR: string)
    requires AllSpace(padL) && AllSpace(padR)
    ensures Normalize(padL + s + padR) == Normalize(s)
  {
    hide Lower;
    assert padL + s + padR == padL + (s + padR);
    TrimLeftDrops(padL, s + padR);
    TrimInside(s, padR);
  }

  lemma {:induction false} TrimInside(s: string, padR: string)
    requires AllSpace(padR)
    ensures TrimRight(TrimLeft(s + padR)) == TrimRight(TrimLeft(s))
  {
    if s == "" {
      assert s + padR == padR + "";
      TrimLeftDrops(padR, "");
    } else if IsSpace(s[0]) {
      assert (s + padR)[1..] == s[1..] + padR;
      TrimInside(s[1..], padR);
    } else {
      TrimRightDrops(s, padR);
    }
  }

  /** The same character up to the case of an ASCII letter. */
  predicate SameLetter(c: char, d: char) {
    || c == d
    || ('A' <= c <= 'Z' && d as int == c as int + 32)
    || ('A' <= d <= 'Z' && c as int == d as int + 32)
  }

  predicate SameLetters(a: string, b: string) {
    |a| == |b| && forall i :: 0 <= i < |a| ==> SameLetter(a[i], b[i])
  }

  lemma {:induction false} TrimLeftCase(a: string, b: string)
    requires SameLetters(a, b)
    ensures SameLetters(TrimLeft(a), TrimLeft(b))
    decreases |a|
  {
    if a != "" {
      assert SameLetter(a[0], b[0]);
      if IsSpace(a[0]) { TrimLeftCase(a[1..], b[1..]); }
    }
  }

  lemma {:induction false} TrimRightCase(a: string, b: string)
    requires SameLetters(a, b)
    ensures SameLetters(TrimRight(a), TrimRight(b))
    decreases |a|
  {
    if a != "" {
      assert SameLetter(a[|a| - 1], b[|a| - 1]);
      if IsSpace(a[|a| - 1]) { TrimRightCase(a[..|a| - 1], b[..|a| - 1]); }
    }
  }

  /** Names that differ only in the case of letters normalise to the same name. */
  lemma NormalizeIgnoresCase(a: string, b: string)
    requires SameLetters(a, b)
    ensures Normalize(a) == Normalize(b)
  {
    TrimLeftCase(a, b);
    TrimRightCase(TrimLeft(a), TrimLeft(b));
    hide TrimLeft, TrimRight, Lower;
    assert Normalize(a) == Normalize(b);
  }

  lemma TrimLeftStep(s: string, i: nat)
    requires i <= |s|
    ensures i < |s| && IsSpace(s[i]) ==> TrimLeft(s[i..]) == TrimLeft(s[i + 1..])
    ensures i == |s| || !IsSpace(s[i]) ==> TrimLeft(s[i..]) == s[i..]
  {
    if i < |s| { assert s[i..][1..] == s[i + 1..]; }
  }

  lemma TrimRightStep(s: string, i: nat, j: nat)
    requires i <= j <= |s|
    ensures i < j && IsSpace(s[j - 1]) ==> TrimRight(s[i..j]) == TrimRight(s[i..j - 1])
    ensures i == j || !IsSpace(s[j - 1]) ==> TrimRight(s[i..j]) == s[i..j]
  {
    if i < j { assert s[i..j][..j - i - 1] == s[i..j - 1]; }
  }

  /** The six white-space characters of the C locale, by code. */
  predicate SpaceCode(c: char) { c as int == 32 || 9 <= c as int <= 13 }

  /** What normalisation keeps of a name: the stretch from i to j, with the codes 65 to 90 raised by 32. */
  ghost predicate Keeps(name: string, i: nat, j: nat, out: string) {
    && i <= j <= |name| && |out| == j - i
    && (forall k :: 0 <= k < i ==> SpaceCode(name[k])) && (forall k :: j <= k < |name| ==> SpaceCode(name[k]))
    && (i < j ==> !SpaceCode(name[i]) && !SpaceCode(name[j - 1]))
    && forall k :: 0 <= k < |out| ==>
         out[k] as int == if 65 <= name[i + k] as int <= 90 then name[i + k] as int + 32 else name[i + k] as int
  }

  /** Trimming stops at the first and last character that is no white space; an all-blank name becomes empty. */
  lemma NormalizeKeeps(name: string) returns (i: nat, j: nat)
    ensures Keeps(name, i, j, Normalize(name))
  {
    var padL := TrimLeftCuts(name);
    var l := TrimLeft(name);
    var padR := TrimRightCuts(l);
    var m := TrimRight(l);
    hide TrimLeft, TrimRight, Lower;
    i, j := |padL|, |padL| + |m|;
    forall k | 0 <= k < i ensures SpaceCode(name[k]) { assert name[k] == padL[k] && IsSpace(padL[k]); }
    forall k | j <= k < |name| ensures SpaceCode(name[k]) { assert name[k] == padR[k - j] && IsSpace(padR[k - j]); }
    forall k | 0 <= k < |m| ensures name[i + k] == m[k] {}
    if i < j { assert m[0] == l[0] && name[i] == m[0] && name[j - 1] == m[|m| - 1]; }
  }

  /** The index loops that find both ends and copy what lies between. */
  method NormalizeName(name: string) returns (out: string)
    ensures out == Normalize(name)
    ensures NormalForm(out)
  {
    hide TrimLeft, TrimRight, Lower, IsSpace, ToLower, NormalForm;
    NormalizeNormal(name);
    out := "";
    assert name[0..] == name;
    var start := 0;
    while start < |name| && IsSpace(name[start])
      invariant 0 <= start <= |name|
      invariant TrimLeft(name[start..]) == TrimLeft(name)
    {
      TrimLeftStep(name, start);
      start := start + 1;
    }
    TrimLeftStep(name, start);
    var end := |name|;
    assert name[start..end] == name[start..];
    while end > start && IsSpace(name[end - 1])
      invariant start <= end <= |name|
      invariant TrimRight(name[start..end]) == TrimRight(TrimLeft(name))
    {
      TrimRightStep(name, start, end);
      end := end - 1;
    }
    TrimRightStep(name, start, end);
    var i := start;
    while i < end
      invariant start <= i <= end
      invariant |out| == i - start
      invariant forall k :: 0 <= k < |out| ==> out[k] == ToLower(name[start + k])
    {
      out := out + [ToLower(name[i])];
      i := i + 1;
    }
    assert out == Lower(name[start..end]);
  }
}
