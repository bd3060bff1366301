/** `fixup_rpath`: replacing `$ORIGIN` and `${ORIGIN}` in a library's search path by the directory that
    the library came from.  One pass validates and counts, a second one copies into a buffer sized
    from the count. */
module Rpath {
  import opened Basics
  import opened Words
  const PATH_MAX: int := 4096

  predicate StartsWith(s: string, i: nat, prefix: string) {
    i + |prefix| <= |s| && s[i..i + |prefix|] == prefix
  }

  /** The test that both passes rely on: a dollar sign begins one of the two spellings. */
  predicate IsToken(s: string, i: nat) {
    StartsWith(s, i, "$ORIGIN") || StartsWith(s, i, "${ORIGIN}")
  }

  /** How far the copying pass jumps: `t + 7 + 2*(t[1]=='{')`. */
  function TokenLength(s: string, i: nat): nat
    requires i + 1 < |s|
  {
    7 + if s[i + 1] == '{' then 2 else 0
  }

  /** `strchr(s + i, c)`, or the end of the string. */
  function Find(s: string, c: char, i: nat): (j: nat)
    requires i <= |s|
    ensures i <= j <= |s|
    ensures j < |s| ==> s[j] == c
    ensures forall k :: i <= k < j ==> s[k] != c
    decreases |s| - i
  {
    if i == |s| || s[i] == c then i else Find(s, c, i + 1)
  }

  /** The number of dollar signs from `i` on. */
  function Dollars(s: string, i: nat): nat
    requires i <= |s|
    decreases |s| - i
  {
    if i == |s| then 0 else Dollars(s, i + 1) + if s[i] == '$' then 1 else 0
  }

  ghost predicate AllTokens(s: string) {
    forall i :: 0 <= i < |s| && s[i] == '$' ==> IsToken(s, i)
  }

  /** The length of the spelling at `i`. */
  function Spelling(s: string, i: nat): nat {
    if StartsWith(s, i, "${ORIGIN}") then |"${ORIGIN}"| else |"$ORIGIN"|
  }

  /** The substitution itself, from `i` on: each spelling, wherever it stands, becomes the directory. */
  function Expand(s: string, dir: string, i: nat): string
    requires i <= |s| && AllTokens(s)
    decreases |s| - i
  {
    var t := Find(s, '$', i);
    if t == |s| then s[i..]
    else
      assert IsToken(s, t);
      s[i..t] + dir + Expand(s, dir, t + Spelling(s, t))
  }

  lemma {:induction false} SkipPlain(s: string, i: nat, j: nat)
    requires i <= j <= |s| && forall k :: i <= k < j ==> s[k] != '$'
    ensures Dollars(s, i) == Dollars(s, j)
    decreases j - i
  {
    if i < j {
      SkipPlain(s, i + 1, j);
    }
  }

  /** A token holds one dollar sign and fits the string. */
  lemma {:induction false} TokenHasOneDollar(s: string, t: nat)
    requires t < |s| && IsToken(s, t)
    ensures t + 1 < |s| && TokenLength(s, t) == Spelling(s, t) && t + TokenLength(s, t) <= |s|
    ensures Dollars(s, t) == 1 + Dollars(s, t + TokenLength(s, t))
  {
    var n := if StartsWith(s, t, "$ORIGIN") then 7 else 9;
    var word := s[t..t + n];
    assert word[0] == s[t] && word[1] == s[t + 1];
    assert n == TokenLength(s, t);
    forall k | t + 1 <= k < t + n ensures s[k] != '$' {
      assert s[k] == word[k - t];
    }
    SkipPlain(s, t + 1, t + n);
  }

  /** One round of the copying pass. */
  lemma {:induction false} ExpandStep(s: string, dir: string, i: nat)
    requires i <= |s| && AllTokens(s)
    ensures var t := Find(s, '$', i);
            if t == |s| then Dollars(s, i) == 0 && Expand(s, dir, i) == s[i..]
            else
              && t + 1 < |s| && t + TokenLength(s, t) <= |s|
              && Expand(s, dir, i) == s[i..t] + dir + Expand(s, dir, t + TokenLength(s, t))
              && Dollars(s, i) == 1 + Dollars(s, t + TokenLength(s, t))
  {
    hide StartsWith;
    var t := Find(s, '$', i);
    SkipPlain(s, i, t);
    if t < |s| {
      TokenHasOneDollar(s, t);
    }
  }

  /** The expansion is no longer than what the copying pass allocates, less the tokens it replaces. */
  lemma {:induction false} ExpandFits(s: string, dir: string, i: nat)
    requires i <= |s| && AllTokens(s)
    ensures |Expand(s, dir, i)| + 7 * Dollars(s, i) <= |s| - i + Times(Dollars(s, i), |dir|)
    decreases |s| - i
  {
    hide Expand, Dollars, AllTokens, Times;
    ExpandStep(s, dir, i);
    var t := Find(s, '$', i);
    if t < |s| {
      var u := t + TokenLength(s, t);
      ExpandFits(s, dir, u);
      TimesSucc(Dollars(s, u), |dir|);
    } else {
      TimesZero(|dir|);
    }
  }

  lemma TimesSucc(n: nat, l: nat)
    ensures Times(n + 1, l) == Times(n, l) + l
    ensures Times(n, l) >= 0
  {}

  lemma TimesZero(l: nat)
    ensures Times(0, l) == 0
  {}

  /** The expansion is again a C string. */
  lemma {:induction false} ExpandIsCString(s: CText, dir: CText, i: nat)
    requires i <= |s| && AllTokens(s)
    ensures '\0' !in Expand(s, dir, i)
    decreases |s| - i
  {
    hide Expand, Dollars, AllTokens;
    ExpandStep(s, dir, i);
    var t := Find(s, '$', i);
    if t < |s| {
      ExpandIsCString(s, dir, t + TokenLength(s, t));
    }
  }

  /** `memcpy(buf + d, src, n)`. */
  method Copy(buf: array<char>, d: nat, src: string)
    requires d + |src| <= buf.Length
    modifies buf
    ensures buf[..d + |src|] == old(buf[..d]) + src
    ensures forall k :: d + |src| <= k < buf.Length ==> buf[k] == old(buf[k])
  {
    for k := 0 to |src|
      invariant buf[..d + k] == old(buf[..d]) + src[..k]
      invariant forall j :: d + |src| <= j < buf.Length ==> buf[j] == old(buf[j])
    {
      buf[d + k] := src[k];
      assert buf[..d + k + 1] == buf[..d + k] + [src[k]];
    }
  }

  /** The text before a token, then the directory in its place; `whole` is what the buffer is to hold. */
  method CopyRound(buf: array<char>, d: nat, text: string, dir: string, ghost rest: string, ghost whole: string)
    requires d <= |whole| < buf.Length && whole == buf[..d] + (text + dir + rest)
    modifies buf
    ensures d + |text| + |dir| <= |whole| && whole == buf[..d + |text| + |dir|] + rest
  {
    Copy(buf, d, text);
    Copy(buf, d + |text|, dir);
  }

  /** The text after the last token, and the terminator. */
  method CopyLast(buf: array<char>, d: nat, text: string, ghost whole: string)
    requires d <= |whole| < buf.Length && whole == buf[..d] + text
    modifies buf
    ensures buf[..|whole|] == whole && buf[|whole|] == '\0'
  {
    Copy(buf, d, text);
    buf[d + |text|] := '\0';
  }

  /** The copying pass: it meets as many tokens as were counted and stays inside the buffer. */
  method CopyExpanded(s: CText, dir: string, n: nat, buf: array<char>) returns (ghost tokens: nat)
    requires AllTokens(s) && n == Dollars(s, 0)
    requires buf.Length == |s| + Times(n, |dir|) + 1
    modifies buf
    ensures tokens == n
    ensures |Expand(s, dir, 0)| < buf.Length && buf[..|Expand(s, dir, 0)|] == Expand(s, dir, 0)
    ensures buf[|Expand(s, dir, 0)|] == '\0'
  {
    hide Expand, Dollars, AllTokens, Times, TokenLength;
    var d, i := 0, 0;
    tokens := 0;
    ghost var whole := Expand(s, dir, 0);
    ExpandFits(s, dir, 0);
    assert whole == buf[..0] + Expand(s, dir, 0);
    var t := Find(s, '$', i);
    while t < |s|
      invariant i <= |s| && t == Find(s, '$', i)
      invariant 0 <= d <= |whole| < buf.Length && whole == buf[..d] + Expand(s, dir, i)
      invariant tokens + Dollars(s, i) == n
      decreases |s| - i
    {
      ExpandStep(s, dir, i);
      CopyRound(buf, d, s[i..t], dir, Expand(s, dir, t + TokenLength(s, t)), whole);
      d := d + (t - i) + |dir|;
      i := t + TokenLength(s, t);
      tokens := tokens + 1;
      t := Find(s, '$', i);
    }
    ExpandStep(s, dir, i);
    CopyLast(buf, d, s[i..], whole);
  }

  /** The counting pass: the number of dollar signs, or nothing when one of them begins no token. */
  method CountTokens(s: CText) returns (n: Option<nat>)
    ensures n.Some? <==> AllTokens(s)
    ensures n.Some? ==> n.value == Dollars(s, 0)
  {
    hide StartsWith;
    var i, k := 0, 0;
    var t := Find(s, '$', 0);
    while t < |s|
      invariant i <= |s| && t == Find(s, '$', i)
      invariant k + Dollars(s, i) == Dollars(s, 0)
      invariant forall j :: 0 <= j < i && s[j] == '$' ==> IsToken(s, j)
      decreases |s| - i
    {
      if !StartsWith(s, t, "$ORIGIN") && !StartsWith(s, t, "${ORIGIN}") {
        return None;
      }
      SkipPlain(s, i, t);
      i := t + 1;
      k := k + 1;
      t := Find(s, '$', i);
    }
    SkipPlain(s, i, |s|);
    return Some(k);
  }

  // ---------------------------------------------------------------- the whole function

  /** What `readlink("/proc/self/exe", ...)` reports; `Quiet` are the errors that only end the search. */
  datatype Link = Target(path: CText) | Quiet | Broken

  /** The world outside: set-id execution, the link, and whether `malloc` succeeds. */
  datatype World = World(secure: bool, link: Link, memory: bool)

  function LastSlash(s: string): (i: int)
    ensures -1 <= i < |s| && (i >= 0 ==> s[i] == '/') && forall k :: i < k < |s| ==> s[k] != '/'
  {
    if s == [] then -1 else if s[|s| - 1] == '/' then |s| - 1 else LastSlash(s[..|s| - 1])
  }

  /** The directory part of a path, or `.` for a path without a slash. */
  function Directory(origin: string): string {
    if LastSlash(origin) >= 0 then origin[..LastSlash(origin)] else "."
  }

  /** Set-id programs use absolute origins only; a path without a slash counts as `.`. */
  predicate Trusted(w: World, origin: string) {
    !w.secure || (LastSlash(origin) >= 0 && origin[0] == '/')
  }

  class Dso {
    const name: CText
    const kernelMapped: bool
    const rpathOrig: Option<CText>
    var rpath: Option<string>

    constructor (name: CText, kernelMapped: bool, rpathOrig: Option<CText>)
      ensures this.name == name && this.kernelMapped == kernelMapped && this.rpathOrig == rpathOrig
      ensures rpath == None
    {
      this.name, this.kernelMapped, this.rpathOrig, rpath := name, kernelMapped, rpathOrig, None;
    }

    /** Where `$ORIGIN` points: the executable's link target for a program the kernel mapped. */
    function OriginPath(w: World): CText {
      if kernelMapped && w.link.Target? then w.link.path else name
    }

    /** The conditions under which tokens are not replaced. */
    predicate Refused(w: World, bufSize: nat) {
      (kernelMapped && (w.secure || !w.link.Target? || |w.link.path| >= bufSize)) || !Trusted(w, OriginPath(w))
    }

    /** `fixup_rpath`. */
    method FixupRpath(w: World, bufSize: nat) returns (code: int)
      modifies this
      // already done, or nothing to do
      ensures old(rpath) != None || rpathOrig == None ==> code == 0 && rpath == old(rpath)
      ensures old(rpath) == None && rpathOrig.Some? ==>
                var s := rpathOrig.value;
                if '$' !in s then code == 0 && rpath == Some(s)
                else if !AllTokens(s) || Dollars(s, 0) > SSIZE_MAX / PATH_MAX then code == 0 && rpath == None
                else if Refused(w, bufSize) then
                  rpath == None && code == if kernelMapped && !w.secure && w.link.Broken? then -1 else 0
                else if !w.memory then code == -1 && rpath == None
                else code == 0 && rpath == Some(Expand(s, Directory(OriginPath(w)), 0))
    {
      hide Expand, Dollars, AllTokens, StartsWith, Times, IsToken;
      if rpath.Some? || rpathOrig.None? {
        return 0;
      }
      var s := rpathOrig.value;
      if Find(s, '$', 0) == |s| {
        rpath := Some(s);
        return 0;
      }
      var n := CountTokens(s);
      if n.None? || n.value > SSIZE_MAX / PATH_MAX {
        return 0;
      }
      var origin := name;
      if kernelMapped {
        if w.secure {
          return 0;
        }
        match w.link {
          case Broken => return -1;
          case Quiet => return 0;
          case Target(path) =>
            if |path| >= bufSize {
              return 0;
            }
            origin := path;
        }
      }
      var t := LastSlash(origin);
      var dir: CText := if t >= 0 then origin[..t] else ".";
      if w.secure && (t < 0 || origin[0] != '/') {
        return 0;
      }
      if !w.memory {
        return -1;
      }
      TimesSucc(n.value, |dir|);
      var buf := new char[|s| + Times(n.value, |dir|) + 1](_ => '\0');
      ghost var tokens := CopyExpanded(s, dir, n.value, buf);
      ExpandIsCString(s, dir, 0);
      var l := StrLen(buf, Expand(s, dir, 0));
      rpath := Some(buf[..l]);
      return 0;
    }
  }

  /** The length of the string in the buffer. */
  method StrLen(buf: array<char>, ghost text: string) returns (l: nat)
    requires |text| < buf.Length && buf[..|text|] == text && buf[|text|] == '\0' && '\0' !in text
    ensures l == |text|
  {
    l := 0;
    while buf[l] != '\0'
      invariant l <= |text|
      decreases |text| - l
    {
      assert l < |text|;
      l := l + 1;
    }
  }
}
