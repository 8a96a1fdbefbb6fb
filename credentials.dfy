/**
 * The runtime configuration and the rule that reads the router password
 * from the credentials file: the password is the first whitespace-separated
 * token of the file's contents; a missing file and a file holding nothing
 * but whitespace are both refused.
 */
module Configuration {
  import opened Wrappers

  const DEFAULT_POLL_MIN := 10
  const DEFAULT_POLL_MAX := 60

  /**
   * The characters Python's `str.isspace`, `str.strip()` and `str.split()`
   * treat as whitespace: the ASCII blanks and separators 0x09-0x0D and
   * 0x1C-0x1F, the space, NEL, NO-BREAK SPACE and the Unicode space
   * separators, line and paragraph separators.
   */
  predicate IsSpace(c: char) {
    var k := c as int;
    || k == 0x20 || 0x09 <= k <= 0x0D || 0x1C <= k <= 0x1F
    || k == 0x85 || k == 0xA0 || k == 0x1680 || 0x2000 <= k <= 0x200A
    || k == 0x2028 || k == 0x2029 || k == 0x202F || k == 0x205F || k == 0x3000
  }

  predicate Blank(s: string) {
    forall i | 0 <= i < |s| :: IsSpace(s[i])
  }

  predicate NoSpace(s: string) {
    forall i | 0 <= i < |s| :: !IsSpace(s[i])
  }

  /** `s` with its leading whitespace removed. */
  function StripLeading(s: string): (r: string)
    ensures |r| <= |s| && r == s[|s| - |r|..]
    ensures Blank(s[..|s| - |r|])
    ensures r == [] || !IsSpace(r[0])
  {
    if s != [] && IsSpace(s[0]) then StripLeading(s[1..]) else s
  }

  /** `s` with its trailing whitespace removed. */
  function StripTrailing(s: string): (r: string)
    ensures |r| <= |s| && r == s[..|r|]
    ensures Blank(s[|r|..])
    ensures r == [] || !IsSpace(r[|r| - 1])
  {
    if s != [] && IsSpace(s[|s| - 1]) then
      var r := StripTrailing(s[..|s| - 1]);
      assert s[|r|..] == s[..|s| - 1][|r|..] + [s[|s| - 1]];
      r
    else s
  }

  /** `str.strip()` with no argument: a slice of `s` that neither starts nor ends with whitespace. */
  function Strip(s: string): (r: string)
    ensures |r| <= |s|
    ensures r == [] || (!IsSpace(r[0]) && !IsSpace(r[|r| - 1]))
  {
    StripTrailing(StripLeading(s))
  }

  /** `r` is the slice of `s` at `k` with nothing but whitespace before and after it. */
  predicate BlankAround(s: string, k: int, r: string) {
    && 0 <= k && k + |r| <= |s| && r == s[k..k + |r|]
    && Blank(s[..k]) && Blank(s[k + |r|..])
  }

  /**
   * `str.strip()` removes whitespace only, and only at the two ends: the
   * result is the slice of `s` after its leading whitespace, with only
   * whitespace behind it.
   */
  lemma StripIsSlice(s: string)
    ensures BlankAround(s, |s| - |StripLeading(s)|, Strip(s))
  {
    var a := StripLeading(s);
    BlankAroundSuffix(s, a, StripTrailing(a));
  }

  /** A prefix of a blank-led suffix of `s`, followed by blanks only, has blanks around it in `s`. */
  lemma BlankAroundSuffix(s: string, a: string, r: string)
    requires |a| <= |s| && a == s[|s| - |a|..] && Blank(s[..|s| - |a|])
    requires |r| <= |a| && r == a[..|r|] && Blank(a[|r|..])
    ensures BlankAround(s, |s| - |a|, r)
  {
    assert s[|s| - |a| + |r|..] == a[|r|..];
  }

  /** The longest prefix of `s` that holds no whitespace. */
  function Word(s: string): (w: string)
    ensures |w| <= |s| && w == s[..|w|]
    ensures NoSpace(w)
    ensures |w| == |s| || IsSpace(s[|w|])
  {
    if s == [] || IsSpace(s[0]) then [] else
      var w := [s[0]] + Word(s[1..]);
      assert s == [s[0]] + s[1..];
      w
  }

  /**
   * `str.split()` with no argument: the runs of non-whitespace characters,
   * in order. Each token is non-empty and free of whitespace; together they
   * hold every non-whitespace character (`SplitKeepsNonSpace`).
   */
  function Split(s: string): (tokens: seq<string>)
    ensures forall token <- tokens :: token != [] && NoSpace(token)
    decreases |s|
  {
    var t := StripLeading(s);
    if t == [] then []
    else
      var w := Word(t);
      assert w != [] by { assert !IsSpace(t[0]); }
      [w] + Split(t[|w|..])
  }

  /** The characters of `s` that are not whitespace, in order. */
  function NonSpace(s: string): string {
    if s == [] then [] else (if IsSpace(s[0]) then [] else [s[0]]) + NonSpace(s[1..])
  }

  function Concat(tokens: seq<string>): string {
    if tokens == [] then [] else tokens[0] + Concat(tokens[1..])
  }

  lemma {:induction false} NonSpaceAppend(a: string, b: string)
    ensures NonSpace(a + b) == NonSpace(a) + NonSpace(b)
  {
    if a == [] {
      assert a + b == b;
    } else {
      var ab := a + b;
      assert ab[0] == a[0] && ab[1..] == a[1..] + b;
      NonSpaceAppend(a[1..], b);
    }
  }

  lemma {:induction false} NonSpaceOfBlank(s: string)
    requires Blank(s)
    ensures NonSpace(s) == []
  {
    if s != [] {
      NonSpaceOfBlank(s[1..]);
    }
  }

  lemma {:induction false} NonSpaceOfWord(s: string)
    requires NoSpace(s)
    ensures NonSpace(s) == s
  {
    if s != [] {
      NonSpaceOfWord(s[1..]);
    }
  }

  /**
   * `str.split()` loses nothing but whitespace: joining its tokens gives
   * back exactly the non-whitespace characters of the input, in order.
   */
  lemma {:induction false} SplitKeepsNonSpace(s: string)
    ensures Concat(Split(s)) == NonSpace(s)
    decreases |s|
  {
    var t := StripLeading(s);
    assert NonSpace(s) == NonSpace(t) by {
      var dropped := s[..|s| - |t|];
      assert s == dropped + t;
      NonSpaceAppend(dropped, t);
      NonSpaceOfBlank(dropped);
    }
    if t != [] {
      var w := Word(t);
      var rest := t[|w|..];
      assert NonSpace(t) == w + NonSpace(rest) by {
        assert t == w + rest;
        NonSpaceAppend(w, rest);
        NonSpaceOfWord(w);
      }
      SplitKeepsNonSpace(rest);
      ConcatSplit(s);
    }
  }

  /** Joining the tokens of a text that is not all whitespace: its first word, then the rest. */
  lemma ConcatSplit(s: string)
    requires StripLeading(s) != []
    ensures var t := StripLeading(s); var w := Word(t);
      Concat(Split(s)) == w + Concat(Split(t[|w|..]))
  {
    var t := StripLeading(s);
    var w := Word(t);
    var tokens := Split(s);
    assert tokens == [w] + Split(t[|w|..]);
    assert tokens[0] == w && tokens[1..] == Split(t[|w|..]);
  }

  /** `str.split()` finds no token exactly when the input is all whitespace. */
  lemma SplitEmptyIffBlank(s: string)
    ensures Split(s) == [] <==> Blank(s)
  {
    var t := StripLeading(s);
    assert s == s[..|s| - |t|] + t;
  }

  /** Stripping cannot turn a text with a non-whitespace character into an empty one. */
  lemma StripEmptyIffBlank(s: string)
    ensures Strip(s) == [] <==> Blank(s)
  {
    var t := StripLeading(s);
    assert s == s[..|s| - |t|] + t;
    if t != [] {
      assert !IsSpace(t[0]);
    }
  }

  /** Why reading the password failed. */
  datatype LoadError = FileNotFound | NoPassword

  /**
   * The password held by the credentials file, given as its contents
   * (`None` when the file does not exist).
   */
  function PasswordIn(credFile: Option<string>): (r: Result<string, LoadError>)
    ensures r.Success? ==> credFile.Some? && r.value != [] && NoSpace(r.value)
  {
    match credFile
    case None => Failure(FileNotFound)
    case Some(text) =>
      var tokens := Split(Strip(text));
      if tokens == [] then Failure(NoPassword) else Success(tokens[0])
  }

  /**
   * The three outcomes of reading the password: a missing file, a file of
   * whitespace only, or the first token of the stripped contents, which is
   * non-empty, holds no whitespace and is a maximal prefix without
   * whitespace of the stripped contents.
   */
  lemma PasswordOutcomes(credFile: Option<string>)
    ensures PasswordIn(credFile) == Failure(FileNotFound) <==> credFile.None?
    ensures PasswordIn(credFile) == Failure(NoPassword) <==> credFile.Some? && Blank(credFile.value)
    ensures PasswordIn(credFile).Success? ==>
      var text, pw := Strip(credFile.value), PasswordIn(credFile).value;
      && pw != [] && NoSpace(pw)
      && pw == text[..|pw|]
      && (|pw| == |text| || IsSpace(text[|pw|]))
  {
    if credFile.Some? {
      var text := Strip(credFile.value);
      assert Split(text) == [] <==> Blank(credFile.value) by {
        StripEmptyIffBlank(credFile.value);
        SplitEmptyIffBlank(text);
      }
      if text != [] {
        assert StripLeading(text) == text;
      }
    }
  }

  /**
   * The runtime settings. Only the password is assigned after construction,
   * by `LoadPassword`; before that it is absent.
   */
  class Config {
    const pollMin: int
    const pollMax: int
    var password: Option<string>

    /** The settings with the default poll interval of 10 to 60 seconds. */
    constructor Default()
      ensures pollMin == DEFAULT_POLL_MIN && pollMax == DEFAULT_POLL_MAX
      ensures password == None
    {
      pollMin := DEFAULT_POLL_MIN;
      pollMax := DEFAULT_POLL_MAX;
      password := None;
    }

    constructor (pollMin: int, pollMax: int)
      ensures this.pollMin == pollMin && this.pollMax == pollMax
      ensures password == None
    {
      this.pollMin := pollMin;
      this.pollMax := pollMax;
      password := None;
    }

    /**
     * Reads the password from the credentials file's contents (`None` when
     * the file does not exist). On failure the password is left as it was.
     */
    method LoadPassword(credFile: Option<string>) returns (r: Outcome<LoadError>)
      modifies this
      ensures PasswordIn(credFile).Success? ==> r == Pass && password == Some(PasswordIn(credFile).value)
      ensures PasswordIn(credFile).Failure? ==>
        r == Fail(PasswordIn(credFile).error) && password == old(password)
    {
      if credFile.None? {
        return Fail(FileNotFound);
      }
      var tokens := Split(Strip(credFile.value));
      if |tokens| == 0 {
        return Fail(NoPassword);
      }
      password := Some(tokens[0]);
      return Pass;
    }
  }
}
