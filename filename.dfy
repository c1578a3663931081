/** The name of the file the summary is saved to: the video title, a space,
    the option name and `.txt`, with the characters a file name may not
    contain replaced by spaces (`re.sub(r'[\/:*?<>|]', ' ', filename)`). */
module FileName {

  /** The characters the character class `[\/:*?<>|]` matches. Inside the
      class `\/` is an escaped slash, so the backslash itself is not one of
      them. */
  predicate MatchedAsWritten(c: char)
  {
    c == '/' || c == ':' || c == '*' || c == '?' || c == '<' || c == '>' || c == '|'
  }

  /** The characters evidently meant: the class as written plus the backslash. */
  predicate Forbidden(c: char)
  {
    c == '\\' || MatchedAsWritten(c)
  }

  /** `re.sub(pattern, ' ', s)` for a one-character class, as a left-to-right scan. */
  function Replace(s: string, matches: char -> bool): (r: string)
    ensures |r| == |s|
    ensures forall i :: 0 <= i < |s| ==> r[i] == (if matches(s[i]) then ' ' else s[i])
  {
    if |s| == 0 then [] else [if matches(s[0]) then ' ' else s[0]] + Replace(s[1..], matches)
  }

  /** The substitution on line 232 as written. */
  function SanitizeAsWritten(s: string): string
  {
    Replace(s, MatchedAsWritten)
  }

  /** The substitution with the backslash included. */
  function Sanitize(s: string): string
  {
    Replace(s, Forbidden)
  }

  /** `video_title + " " + choice + '.txt'`, sanitised by the substitution
      as written (lines 231-232). */
  function SummaryFileName(title: string, choice: string): string
  {
    SanitizeAsWritten(title + " " + choice + ".txt")
  }

  /** The file name with the corrected substitution. */
  function CorrectedSummaryFileName(title: string, choice: string): string
  {
    Sanitize(title + " " + choice + ".txt")
  }

  /** The sanitiser keeps the length, leaves every other character where it
      was, turns each forbidden character into a space, and leaves no
      forbidden character behind, so sanitising twice changes nothing. */
  lemma SanitizeSpec(s: string)
    ensures |Sanitize(s)| == |s|
    ensures forall i :: 0 <= i < |s| && !Forbidden(s[i]) ==> Sanitize(s)[i] == s[i]
    ensures forall i :: 0 <= i < |s| && Forbidden(s[i]) ==> Sanitize(s)[i] == ' '
    ensures forall c :: c in Sanitize(s) ==> !Forbidden(c)
    ensures Sanitize(Sanitize(s)) == Sanitize(s)
  {
    var r := Sanitize(s);
    forall c | c in r ensures !Forbidden(c) {
      var i :| 0 <= i < |r| && r[i] == c;
    }
  }

  /** The name the program saves to is as long as title, separator, option
      and extension together, holds none of `/ : * ? < > |`, and differs
      from the joined text only where one of those stood; without a
      backslash in title and option it is the corrected name. */
  lemma SummaryFileNameAsWritten(title: string, choice: string)
    ensures var joined := title + " " + choice + ".txt";
            var name := SummaryFileName(title, choice);
            && |name| == |title| + |choice| + 5
            && (forall c :: c in name ==> !MatchedAsWritten(c))
            && (forall i :: 0 <= i < |joined| && !MatchedAsWritten(joined[i]) ==> name[i] == joined[i])
            && ('\\' !in joined ==> name == CorrectedSummaryFileName(title, choice))
  {
    var joined := title + " " + choice + ".txt";
    var name := SummaryFileName(title, choice);
    forall c | c in name ensures !MatchedAsWritten(c) {
      var i :| 0 <= i < |name| && name[i] == c;
    }
    if '\\' !in joined {
      var fixed := CorrectedSummaryFileName(title, choice);
      forall i | 0 <= i < |joined| ensures name[i] == fixed[i] {
        assert joined[i] != '\\';
      }
    }
  }

  /** The corrected name never holds a forbidden character and is as long
      as title, separator, option and extension together. */
  lemma CorrectedSummaryFileNameSafe(title: string, choice: string)
    ensures forall c :: c in CorrectedSummaryFileName(title, choice) ==> !Forbidden(c)
    ensures |CorrectedSummaryFileName(title, choice)| == |title| + |choice| + 5
  {
    SanitizeSpec(title + " " + choice + ".txt");
  }

  /** The substitution as written lets every backslash through, where the
      corrected one puts a space: a title such as `AC\DC` keeps its
      backslash, which the file system reads as a directory separator. */
  lemma AsWrittenKeepsBackslash(s: string, i: nat)
    requires i < |s| && s[i] == '\\'
    ensures SanitizeAsWritten(s)[i] == '\\' && '\\' in SanitizeAsWritten(s)
    ensures Sanitize(s)[i] == ' ' && '\\' !in Sanitize(s)
  {
    SanitizeSpec(s);
    assert SanitizeAsWritten(s)[i] == '\\';
  }
}
