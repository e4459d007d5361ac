/** Redaction of a secret: every occurrence replaced by a fixed marker. */
module Redaction {
  import opened Replacement

  const MARK: string := "[REDACTED]"

  function Redact(s: string, secret: string): string {
    if secret == "" then s else Replaced(s, secret, MARK)
  }

  /** Nothing else is touched: the text is cut at the secret from the left, every piece stays, and every
      cut gets the same ten letters. */
  lemma RedactKeepsPieces(s: string, secret: string) returns (pieces: seq<string>)
    requires secret != ""
    ensures CutAt(pieces, secret) && s == Glue(pieces, secret) && Redact(s, secret) == Glue(pieces, "[REDACTED]")
  {
    pieces := KeepsPieces(s, secret, MARK);
  }

  lemma NoSecretNoChange(s: string)
    ensures Redact(s, "") == s
  {
  }

  /** Redaction removes a secret from every text exactly when the marker cannot help to spell it. */
  lemma RedactionRemovesExactly(secret: string)
    requires secret != ""
    ensures (forall s :: !Occurs(secret, Redact(s, secret))) <==> !Leaky(secret, MARK)
  {
    RemovesExactly(secret, MARK);
    forall s ensures Occurs(secret, Redact(s, secret)) <==> Survives(secret, s, MARK) {
    }
  }

  lemma RedactRemoves(s: string, secret: string)
    requires secret != "" && !Leaky(secret, MARK)
    ensures !Occurs(secret, Redact(s, secret))
  {
    if Occurs(secret, Redact(s, secret)) {
      var p :| At(secret, Replaced(s, secret, MARK), p);
      SurvivorIsLeaky(s, secret, MARK, p);
    }
  }

  /** A condition easy to check: no bracket in the secret, and the secret no part of "REDACTED". */
  ghost predicate Plain(x: string) {
    x != "" && '[' !in x && ']' !in x && !Occurs(x, "REDACTED")
  }

  lemma InsideMark(x: string)
    requires x != "" && '[' !in x && ']' !in x
    ensures Occurs(x, MARK) <==> Occurs(x, "REDACTED")
  {
    var inner := "REDACTED";
    assert MARK[1..9] == inner;
    if Occurs(x, MARK) {
      var p :| At(x, MARK, p);
      assert x[0] == MARK[p] && x[|x| - 1] == MARK[p + |x| - 1];
      assert At(x, MARK[1..9], p - 1);
    }
    if Occurs(x, inner) {
      var p :| At(x, inner, p);
      SliceAt(x, MARK, 1, 9, p);
    }
  }

  lemma NothingAfterMark(x: string)
    requires ']' !in x
    ensures !LeaksAfter(x, MARK)
  {
    forall k | 0 <= k < |MARK| ensures !(MARK[k..] <= x) {
      assert MARK[k..][9 - k] == ']';
    }
  }

  lemma PlainIsApart(x: string)
    requires Plain(x)
    ensures Apart(x, MARK)
  {
    InsideMark(x);
    NothingAfterMark(x);
    forall k | 0 <= k < |x| ensures !Comparable(x[k..], MARK) {
      assert x[k] == x[k..][0];
    }
  }

  lemma PlainNeverSurvives(s: string, secret: string)
    requires Plain(secret)
    ensures !Occurs(secret, Redact(s, secret))
  {
    PlainIsApart(secret);
    RedactRemoves(s, secret);
  }

  /** Among secrets without brackets, not being a part of "REDACTED" is exact. */
  lemma BracketFreeExactly(secret: string)
    requires secret != "" && '[' !in secret && ']' !in secret
    ensures (forall s :: !Occurs(secret, Redact(s, secret))) <==> !Occurs(secret, "REDACTED")
  {
    RedactionRemovesExactly(secret);
    InsideMark(secret);
    if !Occurs(secret, "REDACTED") {
      PlainIsApart(secret);
    }
  }

  /** Redacting twice is redacting once, on every text, exactly for no secret, for the marker itself and
      for the secrets that redaction removes. */
  lemma RedactIsIdempotentExactly(secret: string)
    ensures (forall s :: Redact(Redact(s, secret), secret) == Redact(s, secret)) <==>
            secret == "" || secret == MARK || !Leaky(secret, MARK)
  {
    if secret != "" {
      StableExactly(secret, MARK);
      forall s ensures StableOn(s, secret, MARK) <==> Redact(Redact(s, secret), secret) == Redact(s, secret) {
      }
    }
  }

  /** The redaction of other secrets spells this one in no text that is free of it, exactly when it lines
      up with the marker nowhere. */
  lemma SecondRedactionExactly(secret: string)
    requires secret != ""
    ensures (forall s, other :: Occurs(secret, Redact(s, other)) ==> Occurs(secret, s)) <==> Apart(secret, MARK)
  {
    CreatesNothingExactly(secret, MARK);
    forall s, other
      ensures Creates(s, other, secret, MARK) <==> Occurs(secret, Redact(s, other)) && !Occurs(secret, s)
    {
    }
  }

  /** The secret "x[" is spelled again by the marker that replaces it in "xx[". */
  lemma BracketSecretSurvives()
    ensures Redact("xx[", "x[") == "x[REDACTED]"
    ensures Occurs("x[", Redact("xx[", "x[")) && Leaky("x[", MARK)
  {
    var x, t := "x[", "x[REDACTED]";
    assert "xx[" == "x" + x + "";
    assert !At(x, "xx[", 0) by {
      assert x[1] != "xx["[0 + 1];
    }
    assert At(x, "xx[", 1);
    ReplacedOnce("x", x, "", MARK);
    assert "x" + MARK + "" == t;
    assert At(x, t, 0);
    SurvivorIsLeaky("xx[", x, MARK, 0);
  }

  /** A bracket alone is no harm: "[y[" is removed from every text. */
  lemma BracketsMayBeSafe()
    ensures !Leaky("[y[", MARK)
  {
    var x := "[y[";
    forall p ensures !At(x, MARK, p) {
      assert 'y' !in MARK && x[1] == 'y';
    }
    NothingAfterMark(x);
    forall k: nat ensures !LeaksBeforeAt(x, MARK, k) {
      if k == 1 {
        assert x[1..][0] == 'y';
      } else if k == 2 {
        assert At(x, x[..2] + x, 0);
      }
    }
  }

  lemma NotYetSpelled()
    ensures !Occurs("[y[", "[yS")
  {
    var x := "[y[";
    forall p ensures !At(x, "[yS", p) {
      assert x[2] == '[' && "[yS"[0 + 2] == 'S';
    }
  }

  lemma OnlyAtTheEnd()
    ensures FirstAt("S", "[y" + "S" + "", 2)
  {
    var y, w := "S", "[y" + "S" + "";
    assert At(y, w, 2);
    forall q | 0 <= q < 2 ensures !At(y, w, q) {
      assert w[q + 0] != y[0];
    }
  }

  /** But another redaction can spell it: the one of "S" in "[yS". */
  lemma OtherRedactionSpells()
    ensures Redact("[yS", "S") == "[y[REDACTED]" && Occurs("[y[", "[y[REDACTED]") && !Occurs("[y[", "[yS")
  {
    NotYetSpelled();
    OnlyAtTheEnd();
    ReplacedOnce("[y", "S", "", MARK);
    assert "[yS" == "[y" + "S" + "";
    assert "[y" + MARK + "" == "[y[REDACTED]";
    assert At("[y[", "[y[REDACTED]", 0);
  }
}
