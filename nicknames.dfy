/**
 Nickname sanitising and de-duplication (`SessionController.get_safe_nick`),
 as functions on values. The imperative loop that computes the same result is
 `Session.SessionController.GetSafeNick`.
 */
module Nicknames {
  import opened Strings

  /** `re.sub(r"[^\w\s]", '', s)`: drop every character that is neither a word character nor whitespace. */
  function StripPunctuation(s: string): (r: string)
    ensures forall i :: 0 <= i < |r| ==> r[i] in s && (IsWordChar(r[i]) || IsSpace(r[i]))
  {
    if s == [] then []
    else
      var rest := StripPunctuation(s[1..]);
      if IsWordChar(s[0]) || IsSpace(s[0]) then [s[0]] + rest else rest
  }

  /** `re.sub(r"\s+", '', s)`: drop every run of whitespace, i.e. every whitespace character. */
  function StripWhitespace(s: string): (r: string)
    ensures forall i :: 0 <= i < |r| ==> r[i] in s && !IsSpace(r[i])
  {
    if s == [] then []
    else
      var rest := StripWhitespace(s[1..]);
      if IsSpace(s[0]) then rest else [s[0]] + rest
  }

  /** The two substitutions of `get_safe_nick`, in the order the source applies them. */
  function Sanitise(s: string): (r: string)
    ensures forall i :: 0 <= i < |r| ==> IsWordChar(r[i])
  {
    StripWhitespace(StripPunctuation(s))
  }

  /** Reference definition: the word characters of `s`, in order. */
  function WordChars(s: string): string {
    if s == [] then []
    else if IsWordChar(s[0]) then [s[0]] + WordChars(s[1..])
    else WordChars(s[1..])
  }

  /** The two substitutions together keep exactly the word characters, in order. */
  lemma {:induction false} SanitiseKeepsWordChars(s: string)
    ensures Sanitise(s) == WordChars(s)
  {
    if s != [] {
      SanitiseKeepsWordChars(s[1..]);
    }
  }

  /** A nick made of word characters only is left as it is. */
  lemma {:induction false} SanitiseKeepsSafeNick(s: string)
    requires forall i :: 0 <= i < |s| ==> IsWordChar(s[i])
    ensures Sanitise(s) == s
  {
    if s != [] {
      SanitiseKeepsSafeNick(s[1..]);
      assert s == [s[0]] + s[1..];
    }
  }

  /**
   The k-th name probed for `base`: the loop appends `str(1)`, then `str(2)`, ...
   to the running name, so the candidates are base, base1, base12, base123, ...
   */
  function Candidate(base: string, k: nat): (r: string)
    ensures |r| >= |base| + k
    ensures r[..|base|] == base
  {
    if k == 0 then base else Candidate(base, k - 1) + NatToString(k)
  }

  /** The suffixes accumulate: every candidate starts with every earlier one. */
  lemma {:induction false} CandidatesAccumulate(base: string, i: nat, k: nat)
    requires i <= k
    ensures |Candidate(base, i)| <= |Candidate(base, k)|
    ensures Candidate(base, k)[..|Candidate(base, i)|] == Candidate(base, i)
  {
    if i < k {
      CandidatesAccumulate(base, i, k - 1);
      var prev := Candidate(base, k - 1);
      assert Candidate(base, k) == prev + NatToString(k);
      assert (prev + NatToString(k))[..|prev|] == prev;
    }
  }

  /** Every candidate of a word-character base is made of word characters. */
  lemma {:induction false} CandidateIsWord(base: string, k: nat)
    requires forall i :: 0 <= i < |base| ==> IsWordChar(base[i])
    ensures forall i :: 0 <= i < |Candidate(base, k)| ==> IsWordChar(Candidate(base, k)[i])
  {
    if k > 0 {
      CandidateIsWord(base, k - 1);
      var prev, digits := Candidate(base, k - 1), NatToString(k);
      assert Candidate(base, k) == prev + digits;
      forall i | 0 <= i < |prev + digits|
        ensures IsWordChar((prev + digits)[i])
      {
        if i >= |prev| {
          assert IsDigit(digits[i - |prev|]);
        }
      }
    }
  }

  /** The names in `taken` at least as long as the k-th candidate: the measure that shrinks as the probing goes on. */
  function LongerTaken(base: string, taken: set<string>, k: nat): set<string> {
    set t | t in taken && |t| >= |Candidate(base, k)|
  }

  /** Probing past a taken candidate leaves strictly fewer taken names to collide with. */
  lemma LongerTakenShrinks(base: string, taken: set<string>, k: nat)
    requires Candidate(base, k) in taken
    ensures LongerTaken(base, taken, k + 1) < LongerTaken(base, taken, k)
  {
    assert Candidate(base, k + 1) == Candidate(base, k) + NatToString(k + 1);
    assert Candidate(base, k) !in LongerTaken(base, taken, k + 1);
  }

  /** The index of the first candidate from the k-th on that is not taken. */
  function FreeIndex(base: string, taken: set<string>, k: nat): (j: nat)
    ensures j >= k
    ensures Candidate(base, j) !in taken
    ensures forall i :: k <= i < j ==> Candidate(base, i) in taken
    decreases LongerTaken(base, taken, k)
  {
    if Candidate(base, k) !in taken then k
    else
      LongerTakenShrinks(base, taken, k);
      FreeIndex(base, taken, k + 1)
  }

  /**
   `get_safe_nick(requested)` against the registered nicks `taken`: the first
   candidate of the sanitised request that nobody holds. It is free, made of
   word characters only, extends the sanitised request, is that request
   itself, with no suffix, when the request is free, and every candidate
   probed before it is taken.
   */
  function SafeNick(requested: string, taken: set<string>): (r: string)
    ensures r !in taken
    ensures forall i :: 0 <= i < |r| ==> IsWordChar(r[i])
    ensures |r| >= |Sanitise(requested)| && r[..|Sanitise(requested)|] == Sanitise(requested)
    ensures Sanitise(requested) !in taken ==> r == Sanitise(requested)
  {
    var base := Sanitise(requested);
    var j := FreeIndex(base, taken, 0);
    CandidateIsWord(base, j);
    Candidate(base, j)
  }

  /** The safe nick is the first candidate nobody holds: every candidate probed before it is taken. */
  lemma SafeNickIsFirstFree(requested: string, taken: set<string>)
    ensures exists j: nat :: SafeNick(requested, taken) == Candidate(Sanitise(requested), j) &&
              forall i :: 0 <= i < j ==> Candidate(Sanitise(requested), i) in taken
  {
    var j := FreeIndex(Sanitise(requested), taken, 0);
  }

  /** A free, already safe request is kept as it is. */
  lemma SafeNickFreeRequest()
    ensures SafeNick("Bob", {"Ann"}) == "Bob"
  {
    SanitiseKeepsSafeNick("Bob");
  }

  /** A first clash appends `1`. */
  lemma SafeNickFirstClash()
    ensures SafeNick("Bob", {"Bob"}) == "Bob1"
  {
    SanitiseKeepsSafeNick("Bob");
    assert NatToString(1) == "1";
    assert Candidate("Bob", 1) == "Bob1";
    assert FreeIndex("Bob", {"Bob"}, 1) == 1;
  }

  /** The suffixes accumulate: a second clash gives `Bob12`, not `Bob2`. */
  lemma SafeNickSecondClash()
    ensures SafeNick("Bob", {"Bob", "Bob1"}) == "Bob12"
  {
    var taken := {"Bob", "Bob1"};
    SanitiseKeepsSafeNick("Bob");
    assert NatToString(1) == "1";
    assert NatToString(2) == "2";
    assert Candidate("Bob", 1) == "Bob1";
    assert Candidate("Bob", 2) == "Bob12";
    assert |"Bob12"| == 5;
    assert "Bob12" !in taken;
    assert FreeIndex("Bob", taken, 2) == 2;
    assert FreeIndex("Bob", taken, 1) == FreeIndex("Bob", taken, 2);
    assert FreeIndex("Bob", taken, 0) == FreeIndex("Bob", taken, 1);
  }

  /** Punctuation and whitespace are dropped before the clash test. */
  lemma SafeNickDropsPunctuation()
    ensures SafeNick("Al! 2", {}) == "Al2"
  {
    SanitiseKeepsWordChars("Al! 2");
    assert WordChars("2") == "2";
    assert WordChars(" 2") == "2";
    assert WordChars("! 2") == "2";
    assert WordChars("l! 2") == "l2";
    assert Sanitise("Al! 2") == "Al2";
    assert FreeIndex("Al2", {}, 0) == 0;
  }

  /** A request with no word character at all yields the empty nick. */
  lemma SafeNickMayBeEmpty()
    ensures SafeNick("?! ", {}) == ""
  {
    SanitiseKeepsWordChars("?! ");
    assert WordChars(" ") == "";
    assert WordChars("! ") == "";
  }
}
