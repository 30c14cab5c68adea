/**
 * `password_is_strong`: the optional password policy of the `password_checker`
 * configuration section, applied as a chain of checks that stops at the first
 * one the password fails: length, mixed case, digit, special character, and
 * a dictionary of forbidden fragments read from a file.
 */
module Strength {

  import opened Maybe
  import opened Text

  const DefaultMinLength: int := 8
  const Digits: string := "0123456789"
  const Specials: string := "!\"#$%&'()*+,-./:;<=>?@[\\]^_`{|}~"
  const DictionaryFileKey: string := "dictionary_file"

  /**
   * The options of the `password_checker` section, as `getint` and
   * `getboolean` read them; `None` is an absent option.
   */
  datatype Checker = Checker(
    minLength: Option<int>,
    mixedCaseRequired: Option<bool>,
    digitRequired: Option<bool>,
    specialRequired: Option<bool>,
    dictionaryCheckEnabled: Option<bool>,
    dictionaryFile: Option<string>)

  /** The files the service can open, each as the lines iterating over it yields. */
  type Files = map<string, seq<string>>

  /**
   * How `password_is_strong` ends: it returns a verdict, or raises `KeyError`
   * for a missing `dictionary_file` option, or fails to open the dictionary.
   */
  datatype Verdict = Returned(strong: bool) | MissingOption(key: string) | CannotOpen(path: string)

  /** `any([c in p for c in chars])` */
  predicate HasAny(p: string, chars: string) {
    exists c :: c in chars && c in p
  }

  /** The mixed-case check passes: `p.lower() != p and p.upper() != p`. */
  predicate MixedCase(p: string) {
    Lower(p) != p && Upper(p) != p
  }

  /**
   * A dictionary line forbids the password: it is not blank and, stripped of
   * trailing whitespace and lower-cased, occurs in the lower-cased password.
   */
  predicate Rejects(line: string, p: string) {
    !IsSpace(line) && Contains(Lower(p), Lower(RStrip(line)))
  }

  /** The lines of the dictionary file as far as they are read, and the verdict. */
  function DictionaryVerdict(conf: Checker, files: Files, p: string): Verdict {
    if conf.dictionaryFile.None? then MissingOption(DictionaryFileKey)
    else if conf.dictionaryFile.value !in files then CannotOpen(conf.dictionaryFile.value)
    else
      var lines := files[conf.dictionaryFile.value];
      Returned(!exists i :: 0 <= i < |lines| && Rejects(lines[i], p))
  }

  /** The policy, check by check in the order the service applies them. */
  function PasswordStrength(section: Option<Checker>, files: Files, p: string): Verdict {
    if section.None? then Returned(true)
    else
      var conf := section.value;
      if |p| < conf.minLength.GetOr(DefaultMinLength) then Returned(false)
      else if conf.mixedCaseRequired.GetOr(false) && !MixedCase(p) then Returned(false)
      else if conf.digitRequired.GetOr(false) && !HasAny(p, Digits) then Returned(false)
      else if conf.specialRequired.GetOr(false) && !HasAny(p, Specials) then Returned(false)
      else if conf.dictionaryCheckEnabled.GetOr(false) then DictionaryVerdict(conf, files, p)
      else Returned(true)
  }

  /**
   * The loop over the lines of the open dictionary file: blank lines are
   * skipped, and the first line whose pattern occurs in the password ends
   * the scan.
   */
  method ScanDictionary(lines: seq<string>, password: string) returns (strong: bool)
    ensures strong <==> !exists i :: 0 <= i < |lines| && Rejects(lines[i], password)
  {
    var i := 0;
    while i < |lines|
      invariant i <= |lines|
      invariant forall j :: 0 <= j < i ==> !Rejects(lines[j], password)
    {
      var line := lines[i];
      if !IsSpace(line) {
        var pattern := Lower(RStrip(line));
        if Contains(Lower(password), pattern) {
          assert Rejects(lines[i], password);
          return false;
        }
      }
      i := i + 1;
    }
    return true;
  }

  /** `password_is_strong(password)` with the `password_checker` section `section`, if there is one. */
  method PasswordIsStrong(section: Option<Checker>, files: Files, password: string) returns (v: Verdict)
    ensures v == PasswordStrength(section, files, password)
  {
    if section.None? {
      return Returned(true);
    }
    var conf := section.value;
    if |password| < conf.minLength.GetOr(DefaultMinLength) {
      return Returned(false);
    }
    if conf.mixedCaseRequired.GetOr(false) {
      if Lower(password) == password || Upper(password) == password {
        return Returned(false);
      }
    }
    if conf.digitRequired.GetOr(false) {
      if !HasAny(password, Digits) {
        return Returned(false);
      }
    }
    if conf.specialRequired.GetOr(false) {
      if !HasAny(password, Specials) {
        return Returned(false);
      }
    }
    if conf.dictionaryCheckEnabled.GetOr(false) {
      if conf.dictionaryFile.None? {
        return MissingOption(DictionaryFileKey);
      }
      var path := conf.dictionaryFile.value;
      if path !in files {
        return CannotOpen(path);
      }
      var strong := ScanDictionary(files[path], password);
      return Returned(strong);
    }
    return Returned(true);
  }

  /** Without a `password_checker` section every password is strong. */
  lemma NoCheckerAcceptsAll(files: Files, p: string)
    ensures PasswordStrength(None, files, p) == Returned(true)
  {
  }

  /**
   * A password shorter than the minimum (8 when unset) is weak whatever the
   * other options say; the dictionary file is never consulted for it.
   */
  lemma TooShortRejected(conf: Checker, files: Files, p: string)
    requires |p| < conf.minLength.GetOr(DefaultMinLength)
    ensures PasswordStrength(Some(conf), files, p) == Returned(false)
  {
  }

  /** The mixed-case check passes exactly when the password has an upper-case and a lower-case letter. */
  lemma MixedCaseIff(p: string)
    ensures MixedCase(p) <==>
      (exists i :: 0 <= i < |p| && IsUpperChar(p[i])) && (exists j :: 0 <= j < |p| && IsLowerChar(p[j]))
  {
    LowerFixedIff(p);
    UpperFixedIff(p);
  }

  /** The digit check passes exactly when some character of the password is `0`-`9`. */
  lemma DigitIff(p: string)
    ensures HasAny(p, Digits) <==> exists i :: 0 <= i < |p| && '0' <= p[i] <= '9'
  {
    if exists i :: 0 <= i < |p| && '0' <= p[i] <= '9' {
      var i :| 0 <= i < |p| && '0' <= p[i] <= '9';
      assert p[i] in Digits;
    }
  }

  /** With mixed case required, a password without letters is weak. */
  lemma NoLettersNotMixed(conf: Checker, files: Files, p: string)
    requires conf.mixedCaseRequired == Some(true)
    requires forall i :: 0 <= i < |p| ==> !IsUpperChar(p[i]) && !IsLowerChar(p[i])
    ensures PasswordStrength(Some(conf), files, p) == Returned(false)
  {
    LowerFixedIff(p);
  }

  /** A password holding a dictionary word, in any letter case, is weak. */
  lemma DictionaryWordRejected(line: string, a: string, word: string, b: string)
    requires !IsSpace(line)
    requires Lower(word) == Lower(RStrip(line))
    ensures Rejects(line, a + word + b)
  {
    var pat := Lower(RStrip(line));
    LowerAppend(a + word, b);
    LowerAppend(a, word);
    assert OccursAt(pat, pat, 0);
    ContainsWithin(Lower(a), pat, Lower(b), pat);
  }

  /** The dictionary check ignores letter case in the password. */
  lemma RejectsIgnoresCase(line: string, p: string)
    ensures Rejects(line, Upper(p)) == Rejects(line, p)
    ensures Rejects(line, Lower(p)) == Rejects(line, p)
  {
    LowerIdempotent(p);
    assert Lower(Upper(p)) == Lower(p) by {
      forall i | 0 <= i < |p|
        ensures Lower(Upper(p))[i] == Lower(p)[i]
      {
        CaseRoundTrip(p[i]);
      }
    }
  }

  /** A line of the dictionary file that is not blank forbids at least one character. */
  lemma RejectingPatternNotEmpty(line: string)
    requires line != [] && !IsSpace(line)
    ensures Lower(RStrip(line)) != []
  {
    RStripNotBlank(line);
  }

  /** Dropping one blank line keeps each rejecting line. */
  lemma DropBlankKeepsRejection(p: string, before: seq<string>, blank: string, after: seq<string>, i: nat)
    requires IsSpace(blank)
    requires i < |before + [blank] + after| && Rejects((before + [blank] + after)[i], p)
    ensures exists k :: 0 <= k < |before + after| && Rejects((before + after)[k], p)
  {
    var with := before + [blank] + after;
    var without := before + after;
    if i < |before| {
      assert without[i] == with[i];
    } else {
      assert without[i - 1] == with[i];
    }
  }

  /** Adding one blank line keeps each rejecting line. */
  lemma AddBlankKeepsRejection(p: string, before: seq<string>, blank: string, after: seq<string>, i: nat)
    requires i < |before + after| && Rejects((before + after)[i], p)
    ensures exists k :: 0 <= k < |before + [blank] + after| && Rejects((before + [blank] + after)[k], p)
  {
    var with := before + [blank] + after;
    var without := before + after;
    if i < |before| {
      assert with[i] == without[i];
    } else {
      assert with[i + 1] == without[i];
    }
  }

  /** Blank lines of the dictionary file do not change the verdict. */
  lemma BlankLinesIgnored(conf: Checker, files: Files, p: string, path: string, before: seq<string>, blank: string, after: seq<string>)
    requires conf.dictionaryFile == Some(path)
    requires IsSpace(blank)
    ensures DictionaryVerdict(conf, files[path := before + [blank] + after], p)
         == DictionaryVerdict(conf, files[path := before + after], p)
  {
    var with := before + [blank] + after;
    var without := before + after;
    if exists i :: 0 <= i < |with| && Rejects(with[i], p) {
      var i :| 0 <= i < |with| && Rejects(with[i], p);
      DropBlankKeepsRejection(p, before, blank, after, i);
    }
    if exists i :: 0 <= i < |without| && Rejects(without[i], p) {
      var i :| 0 <= i < |without| && Rejects(without[i], p);
      AddBlankKeepsRejection(p, before, blank, after, i);
    }
  }

  /** More dictionary lines can only make a strong password weak, never the reverse. */
  lemma MoreLinesStricter(conf: Checker, files: Files, p: string, path: string, lines: seq<string>, extra: seq<string>)
    requires conf.dictionaryFile == Some(path)
    ensures DictionaryVerdict(conf, files[path := lines], p) == Returned(false) ==>
      DictionaryVerdict(conf, files[path := lines + extra], p) == Returned(false)
  {
    if exists i :: 0 <= i < |lines| && Rejects(lines[i], p) {
      var i :| 0 <= i < |lines| && Rejects(lines[i], p);
      assert (lines + extra)[i] == lines[i];
    }
  }

  /** The line `password\n` is not blank and strips to `password`, which `Password` matches in any case. */
  lemma PasswordLine()
    ensures !IsSpace("password\n") && RStrip("password\n") == "password"
    ensures Lower("Password") == Lower(RStrip("password\n"))
  {
    var line := "password\n";
    assert RStrip(line) == "password" by {
      assert line[..|line| - 1] == "password";
    }
    assert !IsWhite(line[0]);
    assert Lower("Password") == Lower("password") by {
      assert forall i :: 0 <= i < 8 ==> Lower("Password")[i] == Lower("password")[i];
    }
  }

  /**
   * With the dictionary check on and the file `["password\n"]`, a password
   * that passes the length check but holds `Password` is weak.
   */
  lemma DictionaryExample(files: Files)
    ensures PasswordStrength(Some(Checker(None, None, None, None, Some(true), Some("words.txt"))),
                             files["words.txt" := ["password\n"]], "MyPassword1")
         == Returned(false)
  {
    var line := "password\n";
    PasswordLine();
    DictionaryWordRejected(line, "My", "Password", "1");
    assert "My" + "Password" + "1" == "MyPassword1";
    var conf := Checker(None, None, None, None, Some(true), Some("words.txt"));
    var lines := files["words.txt" := [line]]["words.txt"];
    assert lines[0] == line;
    assert DictionaryVerdict(conf, files["words.txt" := [line]], "MyPassword1") == Returned(false);
  }
}
