/**
 * Lower-casing of a diagnostic message before it is lexed
 * (tokenizing_unified_dataset.py, `run_single_datapoint`): the message is split
 * at single spaces, every word that does not start with a quote is lower-cased,
 * and the words are joined with single spaces again.
 */
module Message {
  import opened Strings

  /** One word: quoted words (identifiers in messages) keep their case. */
  function LowerWord(w: string): string
  {
    if StartsWith(w, "'") then w else Lower(w)
  }

  function LowerWords(ws: seq<string>): (r: seq<string>)
    ensures |r| == |ws| && forall i :: 0 <= i < |ws| ==> r[i] == LowerWord(ws[i])
  {
    seq(|ws|, i requires 0 <= i < |ws| => LowerWord(ws[i]))
  }

  /** `' '.join([w.lower() if not w.startswith("'") else w for w in message.split(" ")])`. */
  function LowercaseMessage(message: string): string
  {
    Join(" ", LowerWords(Split(message, " ")))
  }

  lemma LowerWordNoSpace(w: string)
    requires ' ' !in w
    ensures ' ' !in LowerWord(w)
  {
    if !StartsWith(w, "'") {
      forall i | 0 <= i < |w| ensures Lower(w)[i] != ' ' {
        assert w[i] != ' ';
      }
    }
  }

  /** The words of the result are the words of the message, each lower-cased unless quoted. */
  lemma LowercaseWords(message: string)
    ensures Split(LowercaseMessage(message), " ") == LowerWords(Split(message, " "))
  {
    var ws := Split(message, " ");
    SplitPartsFree(message, ' ');
    forall i | 0 <= i < |ws| ensures ' ' !in LowerWords(ws)[i] {
      LowerWordNoSpace(ws[i]);
    }
    SplitJoinChar(LowerWords(ws), ' ');
  }

  /** Lower-casing keeps the length of the message: only letters change, never the spacing. */
  lemma LowercaseKeepsLength(message: string)
    ensures |LowercaseMessage(message)| == |message|
  {
    var ws := Split(message, " ");
    JoinSameLengths(" ", LowerWords(ws), ws);
    JoinSplit(message, " ");
  }

  lemma LowerWordIdempotent(w: string)
    ensures LowerWord(LowerWord(w)) == LowerWord(w)
  {
    if !StartsWith(w, "'") {
      if |w| > 0 { assert Lower(w)[0] == LowerChar(w[0]); }
      assert StartsWith(Lower(w), "'") == StartsWith(w, "'");
      assert Lower(Lower(w)) == Lower(w);
    }
  }

  /** Lower-casing an already lower-cased message changes nothing. */
  lemma LowercaseIdempotent(message: string)
    ensures LowercaseMessage(LowercaseMessage(message)) == LowercaseMessage(message)
  {
    var ws := LowerWords(Split(message, " "));
    LowercaseWords(message);
    forall i | 0 <= i < |ws| ensures LowerWords(ws)[i] == ws[i] {
      LowerWordIdempotent(Split(message, " ")[i]);
    }
    assert LowerWords(ws) == ws;
  }
}
