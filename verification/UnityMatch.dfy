/**
 IsStringInBiggerString of `libs/unity/unity.c`, the matcher behind the test filters, and
 what it looks for. A C string is modelled by its characters before the terminator.
 */
module UnityMatch {
  import opened Sequences

  const NUL: char := '\0'

  predicate IsCString(s: string) {
    NUL !in s
  }

  /* The character at an offset no greater than the length. */
  function CharAt(s: string, i: nat): char {
    if i < |s| then s[i] else NUL
  }

  /* The characters that end a match string for good. */
  predicate IsEnd(c: char) {
    c == ',' || c == '"' || c == '\'' || c == NUL
  }

  predicate IsStop(c: char) {
    IsEnd(c) || c == ':' || c == '*'
  }

  /* The token is the first character, whatever it is, and all that follow up to a stop. */
  function TokenLength(s: string, from: nat): (t: nat)
    requires 1 <= from <= |s|
    ensures from <= t <= |s| && IsStop(CharAt(s, t))
    ensures forall j :: from <= j < t ==> !IsStop(CharAt(s, j))
    decreases |s| - from
  {
    if IsStop(CharAt(s, from)) then from else TokenLength(s, from + 1)
  }

  function Token(s: string): string
    requires s != ""
  {
    s[..TokenLength(s, 1)]
  }

  /* The character that ended it. */
  function Stop(s: string): (c: char)
    requires s != ""
    ensures IsStop(c)
  {
    CharAt(s, TokenLength(s, 1))
  }

  /* What the matcher is for: without strict matching, whether the token occurs anywhere, 2
     telling that more is to be matched after a ':'; with it, whether the long string starts
     with the token (':') or is the token (a definite end), and never for a wild-card. */
  ghost function Matches(longString: string, shortString: string, strict: bool): nat {
    if shortString == "" then 0
    else if shortString[0] == '*' then if strict then 0 else 1
    else
      var token, stop := Token(shortString), Stop(shortString);
      if !strict then
        if !Occurs(longString, token) then 0 else if stop == ':' then 2 else 1
      else if stop == ':' then if OccursAt(longString, token, 0) then 2 else 0
      else if stop != '*' && longString == token then 1
      else 0
  }

  /* What a match at offset k is worth. */
  function Verdict(longString: string, stop: char, end: nat, strict: bool): nat {
    if stop == '*' then if strict then 0 else 1
    else if IsEnd(stop) then if !strict || CharAt(longString, end) == NUL then 1 else 0
    else 2
  }

  method IsStringInBiggerString(longString: string, shortString: string, strict: bool) returns (r: nat)
    requires IsCString(longString) && IsCString(shortString)
    ensures r == Matches(longString, shortString, strict)
  {
    hide Matches, OccursAt, Token, Verdict, TokenLength;
    NothingToMatch(longString, shortString, strict);
    if CharAt(shortString, 0) == '*' {
      return if strict then 0 else 1;
    }
    var lptr := 0;
    while CharAt(longString, lptr) != NUL
      invariant lptr <= |longString| && (strict ==> lptr == 0)
      invariant shortString != "" ==> forall k: nat :: k < lptr ==> !OccursAt(longString, Token(shortString), k)
      decreases |longString| - lptr
    {
      var lnext := lptr + 1;
      var sptr := 0;
      while CharAt(longString, lptr) != NUL && CharAt(shortString, sptr) != NUL
            && CharAt(longString, lptr) == CharAt(shortString, sptr)
        invariant lnext <= lptr + 1 <= |longString| + 1 && lptr == lnext - 1 + sptr && sptr <= |shortString|
        invariant forall j :: 0 <= j < sptr ==> longString[lnext - 1 + j] == shortString[j]
        invariant shortString != "" ==> sptr < TokenLength(shortString, 1)
        decreases |longString| - lptr
      {
        lptr := lptr + 1;
        sptr := sptr + 1;
        if IsStop(CharAt(shortString, sptr)) {
          MatchFound(longString, shortString, strict, lnext - 1, sptr);
          return Verdict(longString, CharAt(shortString, sptr), lptr, strict);
        }
      }
      if shortString != "" {
        MatchMissed(longString, shortString, lnext - 1, sptr);
      }
      if strict {
        NoMatch(longString, shortString, strict);
        return 0;
      }
      lptr := lnext;
    }
    NoMatch(longString, shortString, strict);
    r := 0;
  }

  lemma NothingToMatch(longString: string, shortString: string, strict: bool)
    ensures CharAt(shortString, 0) == '*' ==> Matches(longString, shortString, strict) == if strict then 0 else 1
    ensures shortString == "" ==> Matches(longString, shortString, strict) == 0
    ensures shortString != "" ==> TokenLength(shortString, 1) >= 1
  {
  }

  /* The token occurs nowhere; for strict matching it is enough that it does not at offset 0. */
  lemma NoMatch(longString: string, shortString: string, strict: bool)
    requires CharAt(shortString, 0) != '*'
    requires shortString != "" ==>
               forall k: nat :: k < |longString| && (strict ==> k == 0) ==> !OccursAt(longString, Token(shortString), k)
    ensures Matches(longString, shortString, strict) == 0
  {
    if shortString != "" {
      var token := Token(shortString);
      assert longString[0..|longString|] == longString;
      assert longString != "" ==> !OccursAt(longString, token, 0);
      forall k: nat | !strict
        ensures !OccursAt(longString, token, k)
      {
        assert k >= |longString| ==> !OccursAt(longString, token, k);
      }
    }
  }

  /* All characters up to a stop were matched from offset k on. */
  lemma MatchFound(longString: string, shortString: string, strict: bool, k: nat, n: nat)
    requires IsCString(longString) && shortString != "" && shortString[0] != '*'
    requires 1 <= n <= TokenLength(shortString, 1) && IsStop(CharAt(shortString, n))
    requires k + n <= |longString| && forall j :: 0 <= j < n ==> longString[k + j] == shortString[j]
    requires strict ==> k == 0
    ensures Verdict(longString, CharAt(shortString, n), k + n, strict) == Matches(longString, shortString, strict)
  {
    assert n == TokenLength(shortString, 1);
    assert longString[k..k + n] == shortString[..n];
    assert OccursAt(longString, Token(shortString), k);
    if strict && n == |longString| {
      assert longString[0..n] == longString;
    }
  }

  /* The comparison from offset k stopped short of the end of the token. */
  lemma MatchMissed(longString: string, shortString: string, k: nat, n: nat)
    requires shortString != "" && n < TokenLength(shortString, 1)
    requires k + n <= |longString|
    requires k + n == |longString| || longString[k + n] != shortString[n]
    ensures !OccursAt(longString, Token(shortString), k)
  {
    var token := Token(shortString);
    if k + |token| <= |longString| {
      assert longString[k..k + |token|][n] == longString[k + n] && token[n] == shortString[n];
    }
  }

  //////////////////////////////////////////////////////////////////////////////
  // What the matcher's result means
  //////////////////////////////////////////////////////////////////////////////

  /* The six characters that end a token, the end of the string included. */
  lemma StopCharacters(c: char)
    ensures IsStop(c) <==> c in [',', '"', '\'', '\0', ':', '*']
    ensures IsEnd(c) <==> c in [',', '"', '\'', '\0']
  {
  }

  /* A short string that is a token, a stop and anything, or just a token, is taken apart so. */
  lemma TokenOf(token: string, c: char, rest: string)
    requires token != ""
    requires forall k :: 1 <= k < |token| ==> token[k] !in [',', '"', '\'', '\0', ':', '*']
    requires c in [',', '"', '\'', ':', '*']
    ensures Token(token + [c] + rest) == token && Stop(token + [c] + rest) == c
    ensures Token(token) == token && Stop(token) == '\0'
  {
    hide IsEnd;
    var s := token + [c] + rest;
    forall k | 1 <= k < |token|
      ensures !IsStop(CharAt(s, k)) && !IsStop(CharAt(token, k))
    {
      StopCharacters(token[k]);
      assert s[k] == token[k];
    }
    StopCharacters(c);
    StopCharacters('\0');
    assert s[|token|] == c && s[..|token|] == token && token[..|token|] == token;
    TokenLengthIs(s, |token|);
    TokenLengthIs(token, |token|);
  }

  lemma TokenLengthIs(s: string, t: nat)
    requires 1 <= t <= |s| && IsStop(CharAt(s, t))
    requires forall k :: 1 <= k < t ==> !IsStop(CharAt(s, k))
    ensures TokenLength(s, 1) == t
  {
    hide IsStop, TokenLength;
  }

  /* Without strict matching the result is not 0 exactly if the long string contains the
     token, and then 2 exactly for a ':'. */
  lemma LooseMeaning(longString: string, token: string, c: char, rest: string)
    requires token != "" && token[0] != '*'
    requires forall k :: 1 <= k < |token| ==> token[k] !in [',', '"', '\'', '\0', ':', '*']
    requires c in [',', '"', '\'', ':', '*']
    ensures var r := Matches(longString, token + [c] + rest, false);
            (r != 0 <==> exists a, b :: Splits(longString, a, token, b)) && (r != 0 ==> r == if c == ':' then 2 else 1)
    ensures var r := Matches(longString, token, false);
            (r != 0 <==> exists a, b :: Splits(longString, a, token, b)) && r <= 1
  {
    hide Occurs, Token, Stop, Splits;
    TokenOf(token, c, rest);
    OccursSplits(longString, token);
  }

  /* With it, after a ':' 2 if the long string starts with the token; after any other end 1 if
     it is the token; nothing for a '*'. */
  lemma StrictMeaning(longString: string, token: string, c: char, rest: string)
    requires token != "" && token[0] != '*'
    requires forall k :: 1 <= k < |token| ==> token[k] !in [',', '"', '\'', '\0', ':', '*']
    requires c in [',', '"', '\'', ':', '*']
    ensures Matches(longString, token + [c] + rest, true)
         == if c == ':' then (if token <= longString then 2 else 0)
            else if c == '*' then 0
            else if longString == token then 1 else 0
    ensures Matches(longString, token, true) == if longString == token then 1 else 0
  {
    hide Token, Stop;
    TokenOf(token, c, rest);
  }

  /* A match string that is empty matches nothing, and a wild-card anything, but not strictly. */
  lemma NoToken(longString: string, rest: string, strict: bool)
    ensures Matches(longString, "", strict) == 0
    ensures Matches(longString, "*" + rest, strict) == if strict then 0 else 1
  {
  }
}
