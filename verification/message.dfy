/** The reply text of the cast action and the sentence of the result card. */
module Message {
  import opened Decimal
  import opened Text

  /** Longest reply the cast action aims for. */
  const Budget: nat := 30

  /** Label of the tracked collection, appended after the total. */
  const Label: string := " DP #5"

  /** `@{username} - {total} DP #5` */
  function Decorated(username: string, total: nat): string {
    "@" + username + " - " + ToDecimal(total) + Label
  }

  /** `{total} DP #5` */
  function Plain(total: nat): string {
    ToDecimal(total) + Label
  }

  predicate EndsWith(s: string, suffix: string) {
    |suffix| <= |s| && s[|s| - |suffix|..] == suffix
  }

  /** The reply as the cast action builds it, with its separate branches for a
      positive and for a zero total. Both branches follow one rule: the
      decorated form when it fits the budget, the plain form otherwise. */
  function Format(username: string, total: nat): (r: string)
    ensures |Decorated(username, total)| <= Budget ==> r == Decorated(username, total)
    ensures |Decorated(username, total)| > Budget ==> r == Plain(total)
  {
    if total > 0 then
      var message := "@" + username + " - " + ToDecimal(total) + " DP #5";
      if |message| > 30 then ToDecimal(total) + " DP #5" else message
    else
      var message := "@" + username + " - 0 DP #5";
      if |message| > 30 then "0 DP #5" else message
  }

  /** The reply always ends with the label and is never longer than the
      decorated form; it fits the budget exactly when the total has at most 24
      digits, that is, when the total is below 10^24. */
  lemma {:induction false} FormatBounds(username: string, total: nat)
    ensures EndsWith(Format(username, total), Label)
    ensures |Format(username, total)| <= |Decorated(username, total)|
    ensures |Format(username, total)| <= Budget <==> |ToDecimal(total)| <= Budget - |Label|
    ensures |Format(username, total)| <= Budget <==> total < Pow10(Budget - |Label|)
  {
    var r := Format(username, total);
    var d := Decorated(username, total);
    if |d| <= Budget {
      assert d == ("@" + username + " - " + ToDecimal(total)) + Label;
    } else {
      assert r == ToDecimal(total) + Label;
    }
    DecimalLength(total, Budget - |Label|);
  }

  /** The reply keeps the whole decimal total: reading back the digits in
      front of the label gives the total. */
  lemma {:induction false} FormatCarriesTotal(username: string, total: nat)
    requires |Decorated(username, total)| > Budget
    ensures var r := Format(username, total);
      AllDigits(r[..|r| - |Label|]) && ParseDecimal(r[..|r| - |Label|]) == total
  {
    var r := Format(username, total);
    assert r[..|r| - |Label|] == ToDecimal(total);
    ParseToDecimal(total);
  }

  const SentenceHead: string := ", you have ("
  const SentenceTail: string := ") $DP#5 tokens in your wallet."

  /** `{total ? `(${total}) $DP#5` : "(0) $DP#5"}` inside the result card:
      the zero branch writes the same digits the other branch would. */
  function ResultSentence(username: string, total: nat): (r: string)
    ensures r == "@" + username + SentenceHead + ToDecimal(total) + SentenceTail
  {
    var amount := if total != 0 then "(" + ToDecimal(total) + ") $DP#5" else "(0) $DP#5";
    AmountCarriesDigits(total, amount);
    SentenceRegroup(username, ToDecimal(total));
    "@" + username + ", you have " + amount + " tokens in your wallet."
  }

  lemma AmountCarriesDigits(total: nat, amount: string)
    requires amount == if total != 0 then "(" + ToDecimal(total) + ") $DP#5" else "(0) $DP#5"
    ensures amount == "(" + ToDecimal(total) + ") $DP#5"
  {
    if total == 0 {
      ToDecimalZero();
    }
  }

  lemma SentenceRegroup(username: string, digits: string)
    ensures "@" + username + ", you have " + ("(" + digits + ") $DP#5") + " tokens in your wallet."
         == "@" + username + SentenceHead + digits + SentenceTail
  {
    var a := "@" + username;
    assert SentenceHead == ", you have " + "(";
    assert SentenceTail == ") $DP#5" + " tokens in your wallet.";
    assert a + ", you have " + ("(" + digits + ") $DP#5") == a + SentenceHead + digits + ") $DP#5";
  }

  /** The card shows the whole total: the text between the parentheses reads
      back as the total, whatever the username. */
  lemma ResultSentenceCarriesTotal(username: string, total: nat)
    ensures var r := ResultSentence(username, total);
      var i := 1 + |username| + |SentenceHead|;
      && i <= |r| - |SentenceTail|
      && AllDigits(r[i..|r| - |SentenceTail|])
      && ParseDecimal(r[i..|r| - |SentenceTail|]) == total
  {
    var r := ResultSentence(username, total);
    var i := 1 + |username| + |SentenceHead|;
    assert r == ("@" + username + SentenceHead) + ToDecimal(total) + SentenceTail;
    assert r[i..|r| - |SentenceTail|] == ToDecimal(total);
    ParseToDecimal(total);
  }

  lemma ExampleShortName()
    ensures Format("alice", 3) == "@alice - 3 DP #5"
  {
    assert ToDecimal(3) == "3";
  }

  lemma ExampleLongName()
    ensures Format("a_rather_long_farcaster_name", 12) == "12 DP #5"
  {
    assert ToDecimal(12) == "12" by {
      assert ToDecimal(1) == "1";
      assert ToDecimal(2) == "2";
    }
  }
}
