/** The landing page's check of a typed room code before it asks the server
    about it: trim, lower-case, refuse an empty code, refuse anything but
    letters and digits. */
module RoomCode {

  const EmptyCodeMessage := "Please enter a room code."
  const BadCharactersMessage := "Room code can only contain letters and numbers."

  /** What `joinRoom` does with the input: show an error and stop, or go on
      to look the normalised code up. */
  datatype JoinCheck = Rejected(message: string) | Lookup(code: string)

  /** The characters `String.prototype.trim` removes: the ECMAScript
      WhiteSpace and LineTerminator code points. */
  predicate IsJsWhitespace(c: char) {
    || c == '\t' || c == '\n' || c == '\U{B}' || c == '\U{C}' || c == '\r' || c == ' '
    || c == '\U{A0}' || c == '\U{1680}' || ('\U{2000}' <= c <= '\U{200A}')
    || c == '\U{2028}' || c == '\U{2029}' || c == '\U{202F}' || c == '\U{205F}'
    || c == '\U{3000}' || c == '\U{FEFF}'
  }

  predicate IsUpper(c: char) {
    'A' <= c <= 'Z'
  }

  /** One character of the class `[a-zA-Z0-9]`. */
  predicate IsAlnum(c: char) {
    ('a' <= c <= 'z') || IsUpper(c) || ('0' <= c <= '9')
  }

  predicate IsLowerAlnum(c: char) {
    ('a' <= c <= 'z') || ('0' <= c <= '9')
  }

  /** `/^[a-zA-Z0-9]+$/.test(s)`. */
  predicate MatchesCodePattern(s: string) {
    |s| >= 1 && forall i | 0 <= i < |s| :: IsAlnum(s[i])
  }

  /** No whitespace at either end. */
  predicate Trimmed(s: string) {
    s == [] || (!IsJsWhitespace(s[0]) && !IsJsWhitespace(s[|s| - 1]))
  }

  /** Leading whitespace removed: what is left is a suffix that does not start
      with whitespace, and everything cut off was whitespace. */
  function TrimStart(s: string): (r: string)
    ensures |r| <= |s| && r == s[|s| - |r|..]
    ensures r == [] || !IsJsWhitespace(r[0])
    ensures forall i | 0 <= i < |s| - |r| :: IsJsWhitespace(s[i])
  {
    if s != [] && IsJsWhitespace(s[0]) then TrimStart(s[1..]) else s
  }

  /** Trailing whitespace removed: what is left is a prefix that does not end
      with whitespace, and everything cut off was whitespace. */
  function TrimEnd(s: string): (r: string)
    ensures |r| <= |s| && r == s[..|r|]
    ensures r == [] || !IsJsWhitespace(r[|r| - 1])
    ensures forall i | |r| <= i < |s| :: IsJsWhitespace(s[i])
  {
    if s != [] && IsJsWhitespace(s[|s| - 1]) then TrimEnd(s[..|s| - 1]) else s
  }

  /** `s.trim()`: the result is a slice of the input with only whitespace cut
      off before and after it, it has no whitespace at either end, and a
      string with none there is returned as it is. */
  function Trim(s: string): (r: string)
    ensures |r| <= |s|
    ensures exists k :: SliceBetweenWhitespace(s, k, r)
    ensures Trimmed(r)
    ensures Trimmed(s) ==> r == s
  {
    CutsCompose(s, TrimStart(s), TrimEnd(TrimStart(s)));
    TrimEnd(TrimStart(s))
  }

  /** A prefix `r` of a suffix `t` of `s`, where what each step cut off is
      whitespace, is a slice of `s` between whitespace. */
  lemma CutsCompose(s: string, t: string, r: string)
    requires |t| <= |s| && t == s[|s| - |t|..]
    requires forall i | 0 <= i < |s| - |t| :: IsJsWhitespace(s[i])
    requires |r| <= |t| && r == t[..|r|]
    requires forall i | |r| <= i < |t| :: IsJsWhitespace(t[i])
    ensures SliceBetweenWhitespace(s, |s| - |t|, r)
  {
    var k := |s| - |t|;
    assert r == s[k..k + |r|];
    forall i | k + |r| <= i < |s| ensures IsJsWhitespace(s[i]) {
      assert s[i] == t[i - k];
    }
  }

  /** `r` is `s[k..k + |r|]`, and everything of `s` before and after that
      slice is whitespace. */
  predicate SliceBetweenWhitespace(s: string, k: int, r: string) {
    && 0 <= k <= k + |r| <= |s|
    && r == s[k..k + |r|]
    && (forall i | 0 <= i < k :: IsJsWhitespace(s[i]))
    && (forall i | k + |r| <= i < |s| :: IsJsWhitespace(s[i]))
  }

  /** ASCII lower-casing of one character. */
  function LowerChar(c: char): char {
    if IsUpper(c) then (c as int - 'A' as int + 'a' as int) as char else c
  }

  /** `s.toLowerCase()` on ASCII: each upper-case letter becomes the
      lower-case letter with the same position in the alphabet, every other
      character stays where it was, no upper-case letter is left, and a
      position holds a letter or digit afterwards exactly when it did before. */
  function ToLower(s: string): (r: string)
    ensures |r| == |s|
    ensures forall i | 0 <= i < |s| :: IsUpper(s[i]) ==> r[i] as int == s[i] as int - 'A' as int + 'a' as int
    ensures forall i | 0 <= i < |s| :: !IsUpper(r[i])
    ensures forall i | 0 <= i < |s| :: !IsUpper(s[i]) ==> r[i] == s[i]
    ensures forall i | 0 <= i < |s| :: IsAlnum(r[i]) <==> IsAlnum(s[i])
    ensures forall i | 0 <= i < |s| :: IsJsWhitespace(r[i]) <==> IsJsWhitespace(s[i])
  {
    if s == [] then [] else [LowerChar(s[0])] + ToLower(s[1..])
  }

  /** The code as `joinRoom` reads it from the input: trimmed, then lower-cased. */
  function Normalize(input: string): string {
    ToLower(Trim(input))
  }

  /** The validation prefix of `joinRoom`. The empty check comes first, so an
      empty (or all-whitespace) input gets the empty-code message, never the
      character-set one. A code that reaches the lookup is non-empty and made
      of lower-case ASCII letters and digits only. */
  function CheckJoin(input: string): (o: JoinCheck)
    ensures o == Rejected(EmptyCodeMessage) <==> Normalize(input) == []
    ensures o == Rejected(BadCharactersMessage) <==> Normalize(input) != [] && !MatchesCodePattern(Normalize(input))
    ensures o.Lookup? <==> MatchesCodePattern(Normalize(input))
    ensures o.Lookup? ==> o.code == Normalize(input)
    ensures o.Lookup? ==> o.code != [] && forall i | 0 <= i < |o.code| :: IsLowerAlnum(o.code[i])
  {
    var code := Normalize(input);
    if code == [] then Rejected(EmptyCodeMessage)
    else if !MatchesCodePattern(code) then Rejected(BadCharactersMessage)
    else Lookup(code)
  }

  /** Normalising twice is normalising once. */
  lemma NormalizeIdempotent(input: string)
    ensures Normalize(Normalize(input)) == Normalize(input)
  {
    var n := Normalize(input);
    ToLowerKeepsTrimmed(Trim(input));
    assert Trim(n) == n;
    ToLowerIdempotent(Trim(input));
  }

  /** Lower-casing moves no whitespace, so a trimmed string stays trimmed. */
  lemma ToLowerKeepsTrimmed(s: string)
    requires Trimmed(s)
    ensures Trimmed(ToLower(s))
  {
    if s != [] {
      var r := ToLower(s);
      assert IsJsWhitespace(r[0]) <==> IsJsWhitespace(s[0]);
      assert IsJsWhitespace(r[|r| - 1]) <==> IsJsWhitespace(s[|s| - 1]);
    }
  }

  /** Lower-casing a lower-cased string changes nothing. */
  lemma ToLowerIdempotent(s: string)
    ensures ToLower(ToLower(s)) == ToLower(s)
  {
    var r := ToLower(s);
    var rr := ToLower(r);
    assert forall i | 0 <= i < |r| :: rr[i] == r[i];
  }

  /** A code the check lets through is let through again unchanged: the
      lookup code is a fixed point of the whole validation. */
  lemma CheckJoinIdempotent(input: string)
    requires CheckJoin(input).Lookup?
    ensures CheckJoin(CheckJoin(input).code) == CheckJoin(input)
  {
    NormalizeIdempotent(input);
  }
}
