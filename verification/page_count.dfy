/** Page-count discovery (`get_max_pages`): how many pages a thread has,
    read from the first page's pagination markup. The HTML is abstracted to
    the two things the decision looks at: the optional `a.pagination_last`
    link with its optional `href`, and the stripped texts of the anchors
    under `ul.pagination_pages`, in document order. */
module PageCount {
  import opened Wrappers
  import opened Decimal

  /** The `a.pagination_last` element; only its `href` attribute is read. */
  datatype LastPageLink = LastPageLink(href: Option<string>)

  /** `link.get("href", "")`. */
  function Href(link: LastPageLink): string {
    link.href.GetOr("")
  }

  /** The number the last-page link yields, if it exists and its href holds
      a digit. */
  function LinkNumber(lastPage: Option<LastPageLink>): (r: Option<nat>)
    ensures r.None? <==> lastPage.None? || !HasDigit(Href(lastPage.value))
    ensures r.Some? ==> r == FirstNumber(Href(lastPage.value))
  {
    match lastPage
    case None => None
    case Some(link) => FirstNumber(Href(link))
  }

  /** The greatest value among the anchor texts that are all digits, or
      None when there is none; other texts take no part. */
  function NumericMax(texts: seq<string>): (r: Option<nat>)
    ensures r.None? <==> forall i :: 0 <= i < |texts| ==> !IsDigitString(texts[i])
    ensures r.Some? ==>
      forall i :: 0 <= i < |texts| && IsDigitString(texts[i]) ==> Value(texts[i]) <= r.value
    ensures r.Some? ==>
      exists i :: 0 <= i < |texts| && IsDigitString(texts[i]) && Value(texts[i]) == r.value
  {
    if texts == [] then None
    else
      var init := texts[..|texts| - 1];
      var last := texts[|texts| - 1];
      var m := NumericMax(init);
      assert forall i :: 0 <= i < |init| ==> init[i] == texts[i];
      if !IsDigitString(last) then m
      else if m.Some? && Value(last) <= m.value then m
      else Some(Value(last))
  }

  /** `get_max_pages`: the first number in the last-page link's href when
      there is one, otherwise `max(..., default=1)` over the numeric anchor
      texts. */
  function MaxPages(lastPage: Option<LastPageLink>, anchorTexts: seq<string>): (r: nat)
    ensures lastPage.Some? && HasDigit(Href(lastPage.value)) ==>
      Some(r) == FirstNumber(Href(lastPage.value))
    ensures lastPage.None? || !HasDigit(Href(lastPage.value)) ==>
      && (forall i :: 0 <= i < |anchorTexts| && IsDigitString(anchorTexts[i]) ==> Value(anchorTexts[i]) <= r)
      && (HasNumeric(anchorTexts, r) || (r == 1 && forall i :: 0 <= i < |anchorTexts| ==> !IsDigitString(anchorTexts[i])))
  {
    match LinkNumber(lastPage)
    case Some(n) => n
    case None => NumericMax(anchorTexts).GetOr(1)
  }

  /** A last-page link whose href holds digits decides the count: it is the
      value of the leftmost maximal digit run, and the anchors are ignored. */
  lemma LastLinkDecides(link: LastPageLink, anchorTexts: seq<string>, start: nat, end: nat)
    requires IsFirstRun(Href(link), start, end)
    ensures AllDigits(Href(link)[start..end])
    ensures MaxPages(Some(link), anchorTexts) == Value(Href(link)[start..end])
  {
    FirstNumberOfRun(Href(link), start, end);
  }

  /** Without a usable last-page link the count is the largest numeric
      anchor, or 1 when no anchor text is numeric. */
  lemma AnchorFallback(lastPage: Option<LastPageLink>, anchorTexts: seq<string>)
    requires lastPage.None? || !HasDigit(Href(lastPage.value))
    ensures forall i :: 0 <= i < |anchorTexts| && IsDigitString(anchorTexts[i]) ==>
      Value(anchorTexts[i]) <= MaxPages(lastPage, anchorTexts)
    ensures (forall i :: 0 <= i < |anchorTexts| ==> !IsDigitString(anchorTexts[i])) ==>
      MaxPages(lastPage, anchorTexts) == 1
    ensures (exists i :: 0 <= i < |anchorTexts| && IsDigitString(anchorTexts[i])) ==>
      exists i :: 0 <= i < |anchorTexts| && IsDigitString(anchorTexts[i])
        && Value(anchorTexts[i]) == MaxPages(lastPage, anchorTexts)
  {
  }

  /** A missing href behaves like an empty one, and both like a missing
      link: control falls through to the anchors. */
  lemma MissingHrefFallsThrough(anchorTexts: seq<string>)
    ensures MaxPages(Some(LastPageLink(None)), anchorTexts)
         == MaxPages(Some(LastPageLink(Some(""))), anchorTexts)
         == MaxPages(None, anchorTexts)
  {
  }

  /** Some anchor text in `texts` is numeric with value `v`. */
  predicate HasNumeric(texts: seq<string>, v: nat) {
    exists i :: 0 <= i < |texts| && IsDigitString(texts[i]) && Value(texts[i]) == v
  }

  /** Every numeric value among `xs` also occurs among `ys`. */
  predicate Covers(xs: seq<string>, ys: seq<string>) {
    forall i :: 0 <= i < |xs| && IsDigitString(xs[i]) ==> HasNumeric(ys, Value(xs[i]))
  }

  lemma NumericMaxMonotone(xs: seq<string>, ys: seq<string>)
    requires Covers(xs, ys)
    ensures NumericMax(xs).Some? ==> NumericMax(ys).Some? && NumericMax(xs).value <= NumericMax(ys).value
  {
    var mx := NumericMax(xs);
    if mx.Some? {
      var i :| 0 <= i < |xs| && IsDigitString(xs[i]) && Value(xs[i]) == mx.value;
      assert HasNumeric(ys, Value(xs[i]));
      var j :| 0 <= j < |ys| && IsDigitString(ys[j]) && Value(ys[j]) == Value(xs[i]);
      assert NumericMax(ys).Some?;
    }
  }

  /** Two anchor lists with the same numeric values give the same maximum. */
  lemma NumericMaxByValues(xs: seq<string>, ys: seq<string>)
    requires Covers(xs, ys) && Covers(ys, xs)
    ensures NumericMax(xs) == NumericMax(ys)
  {
    NumericMaxMonotone(xs, ys);
    NumericMaxMonotone(ys, xs);
  }

  /** A non-numeric anchor text such as "Next" is left out of the candidates,
      wherever it stands, rather than read as a number. */
  lemma NonNumericAnchorIgnored(lastPage: Option<LastPageLink>, before: seq<string>, text: string, after: seq<string>)
    requires !IsDigitString(text)
    ensures MaxPages(lastPage, before + [text] + after) == MaxPages(lastPage, before + after)
  {
    var xs := before + [text] + after;
    var ys := before + after;
    forall i | 0 <= i < |xs| && IsDigitString(xs[i])
      ensures HasNumeric(ys, Value(xs[i]))
    {
      if i < |before| {
        assert ys[i] == xs[i];
      } else {
        assert ys[i - 1] == xs[i];
      }
    }
    forall j | 0 <= j < |ys| && IsDigitString(ys[j])
      ensures HasNumeric(xs, Value(ys[j]))
    {
      if j < |before| {
        assert xs[j] == ys[j];
      } else {
        assert xs[j + 1] == ys[j];
      }
    }
    NumericMaxByValues(xs, ys);
  }

  /** "/t/123/page/7" yields 123: the first digit run, not the last. */
  lemma FirstRunOfHrefExample(anchorTexts: seq<string>)
    ensures MaxPages(Some(LastPageLink(Some("/t/123/page/7"))), anchorTexts) == 123
  {
    var href := "/t/123/page/7";
    assert href[3..6] == "123";
    LastLinkDecides(LastPageLink(Some(href)), anchorTexts, 3, 6);
    assert Value("123") == 123 by {
      assert "123"[..2] == "12";
      assert "12"[..1] == "1";
      assert "1"[..0] == "";
    }
  }

  /** Anchors "1", "2", "…", "7", "Next" with no last-page link give 7. */
  lemma AnchorsExample()
    ensures MaxPages(None, ["1", "2", "…", "7", "Next"]) == 7
  {
    var texts := ["1", "2", "…", "7", "Next"];
    assert !IsDigitString(texts[2]) by { assert !IsDigit(texts[2][0]); }
    assert !IsDigitString(texts[4]) by { assert !IsDigit(texts[4][0]); }
    assert Value("1") == 1 && Value("2") == 2 && Value("7") == 7 by {
      assert "1"[..0] == "" && "2"[..0] == "" && "7"[..0] == "";
    }
    var m := NumericMax(texts);
    assert IsDigitString(texts[3]);
    forall i | 0 <= i < |texts| && IsDigitString(texts[i]) ensures Value(texts[i]) <= 7 {
      assert i == 0 || i == 1 || i == 3;
    }
  }

  /** The count is not always at least 1: a lone anchor "0", or a last-page
      href whose first digit run is "0", gives 0. */
  lemma CountCanBeZero()
    ensures MaxPages(None, ["0"]) == 0
    ensures MaxPages(Some(LastPageLink(Some("/page/0"))), []) == 0
  {
    assert Value("0") == 0 by {
      assert "0"[..0] == "";
    }
    assert IsDigitString(["0"][0]);
    var href := "/page/0";
    assert href[6..7] == "0";
    LastLinkDecides(LastPageLink(Some(href)), [], 6, 7);
  }
}
