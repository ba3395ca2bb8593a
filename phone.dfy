/** The phone number as printed on a card and put in its QR code: the
    cell's text with surrounding whitespace stripped; then a ten-character
    number not starting with `0` gets a `0` in front, and an
    eleven-character number not starting with `0` has its first character
    replaced by `0`. */
module Phone {
  import opened Text

  /** A local mobile number in the form the cards use: eleven characters,
      the first of them `0`. */
  predicate LocalForm(p: string) {
    |p| == 11 && p[0] == '0'
  }

  /** Ten characters not starting with `0` get a `0` in front; eleven
      characters not starting with `0` have their first character replaced
      by `0`; anything else is kept as it is. */
  function NormalizePhone(p: string): (r: string)
    ensures |p| == 10 && p[0] != '0' ==> LocalForm(r) && r[1..] == p
    ensures |p| == 11 && p[0] != '0' ==> LocalForm(r) && r[1..] == p[1..]
    ensures !(|p| in {10, 11} && p[0] != '0') ==> r == p
  {
    if |p| > 0 && |p| == 10 && p[0] != '0' then "0" + p
    else if |p| > 0 && |p| == 11 && p[0] != '0' then "0" + p[1..]
    else p
  }

  /** The phone text of a card: `str(...).strip()`, then `NormalizePhone`. */
  function CardPhone(raw: string): (r: string)
    ensures |Strip(raw)| in {10, 11} && Strip(raw)[0] != '0' ==> LocalForm(r)
    ensures !(|Strip(raw)| in {10, 11} && Strip(raw)[0] != '0') ==> r == Strip(raw)
  {
    NormalizePhone(Strip(raw))
  }

  /** A rewritten card phone keeps the last ten characters of the stripped
      cell after its leading `0`: only the first character is added or replaced. */
  lemma CardPhoneKeepsSubscriber(raw: string)
    requires |Strip(raw)| in {10, 11} && Strip(raw)[0] != '0'
    ensures LocalForm(CardPhone(raw))
    ensures CardPhone(raw)[1..] == Strip(raw)[|Strip(raw)| - 10..]
  {
    NormalizePhoneKeepsSubscriber(Strip(raw));
  }

  /** Normalising an already normalised number changes nothing. */
  lemma NormalizePhoneIdempotent(p: string)
    ensures NormalizePhone(NormalizePhone(p)) == NormalizePhone(p)
  {
  }

  /** The number is rewritten exactly when it has ten or eleven characters
      and does not start with `0`. */
  lemma NormalizePhoneChanges(p: string)
    ensures NormalizePhone(p) != p <==> |p| in {10, 11} && p[0] != '0'
  {
    if |p| == 10 && p[0] != '0' {
      assert |NormalizePhone(p)| != |p|;
    } else if |p| == 11 && p[0] != '0' {
      assert NormalizePhone(p)[0] != p[0];
    }
  }

  /** The result is in local form exactly when the input already was, or
      had ten or eleven characters without a leading `0`. */
  lemma NormalizePhoneLocalForm(p: string)
    ensures LocalForm(NormalizePhone(p)) <==> LocalForm(p) || (|p| in {10, 11} && p[0] != '0')
  {
  }

  /** Only the first character is ever changed or added: the last ten
      characters of a rewritten number are the last ten of the input. */
  lemma NormalizePhoneKeepsSubscriber(p: string)
    requires |p| in {10, 11}
    ensures NormalizePhone(p)[|NormalizePhone(p)| - 10..] == p[|p| - 10..]
  {
  }

  /** A number typed without its leading zero, one typed with a country
      digit in front, and one already in local form. */
  lemma NormalizePhoneExamples()
    ensures NormalizePhone("1712345678") == "01712345678"
    ensures NormalizePhone("81712345678") == "01712345678"
    ensures NormalizePhone("01712345678") == "01712345678"
    ensures NormalizePhone("+8801712345678") == "+8801712345678"
  {
  }

  /** Surrounding whitespace does not stop the rewriting, and the card
      phone of a card phone is the same number. */
  lemma CardPhoneIdempotent(raw: string)
    ensures CardPhone(CardPhone(raw)) == CardPhone(raw)
  {
    var s := Strip(raw);
    StripIdempotent(raw);
    var r := NormalizePhone(s);
    if r != s {
      assert LocalForm(r);
      assert Strip(r) == r by {
        assert SkipSpaces(r, 0) == 0;
        assert SkipSpacesBack(r, 0, |r|) == |r|;
        assert r[0..|r|] == r;
      }
      NormalizePhoneIdempotent(s);
    } else {
      NormalizePhoneIdempotent(s);
    }
  }
}
