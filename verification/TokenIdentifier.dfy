/** Taking token identifiers apart (server/provider/tokenIdentifierParts.go), against the way the services put
    them together (server/services/transactionEvents.go). */
module TokenIdentifier {
  import opened Encoding
  import opened Events

  datatype TokenIdentifierParts = TokenIdentifierParts(
    ticker: string,
    randomSequence: string,
    tickerWithRandomSequence: string,
    nonce: nat)

  function ParseTokenIdentifierIntoParts(tokenIdentifier: string): Option<TokenIdentifierParts> {
    var parts := Split(tokenIdentifier, '-');
    if |parts| == 2 then Some(TokenIdentifierParts(parts[0], parts[1], tokenIdentifier, 0))
    else if |parts| == 3 then
      match ParseUint64Hex(parts[2])
      case None => None
      case Some(nonce) => Some(TokenIdentifierParts(parts[0], parts[1], parts[0] + "-" + parts[1], nonce))
    else None
  }

  /** The printed extended identifier gives back the base identifier and the nonce of a token. */
  ghost predicate ParsesBack(e: EventESDT) {
    var parsed := ParseTokenIdentifierIntoParts(e.ExtendedIdentifier());
    parsed.Some? && parsed.value.tickerWithRandomSequence == e.identifier && parsed.value.nonce == BytesToNat(e.nonce)
  }

  lemma {:induction false} JoinTwo(parts: seq<string>)
    requires |parts| == 2
    ensures Join(parts, '-') == parts[0] + "-" + parts[1]
  {
    assert parts[1..] == [parts[1]];
  }

  lemma {:induction false} PlainIdentifier(e: EventESDT)
    requires e.nonce == []
    ensures ParsesBack(e) <==> Count(e.identifier, '-') == 1
  {
    var parts := Split(e.identifier, '-');
    SplitJoin(e.identifier, '-');
    if |parts| == 3 {
      // The third part is taken for a nonce and is missing from the identifier that comes back.
      JoinTwo(parts[1..]);
      assert |e.identifier| > |parts[0] + "-" + parts[1]|;
    }
  }

  lemma {:induction false} IdentifierWithNonce(e: EventESDT)
    requires e.nonce != []
    ensures ParsesBack(e) <==> Count(e.identifier, '-') == 1 && BytesToNat(e.nonce) < TWO_TO_THE_64
  {
    var nonceText := HexEncode(e.nonce);
    var extended := e.identifier + ['-'] + nonceText;
    assert e.ExtendedIdentifier() == extended;
    HexText(e.nonce);
    HexTextOfBytes(e.nonce);
    SplitLast(e.identifier, '-', nonceText);
    SplitJoin(e.identifier, '-');
    var own := Split(e.identifier, '-');
    if |own| == 1 {
      assert |extended| > |e.identifier|;
    }
    if |own| == 2 {
      JoinTwo(own);
    }
  }

  /** It does so if and only if the identifier has exactly one dash and the nonce fits into 64 bits;
      an empty nonce counts as zero. */
  lemma {:induction false} ExtendedIdentifierParsesBackExactly(e: EventESDT)
    ensures ParsesBack(e) <==> Count(e.identifier, '-') == 1 && BytesToNat(e.nonce) < TWO_TO_THE_64
  {
    if e.nonce == [] {
      PlainIdentifier(e);
    } else {
      IdentifierWithNonce(e);
    }
  }

  /** Up to eight bytes fit, and minimal nonce bytes can be told back from the parsed number. */
  lemma {:induction false} MinimalNonceIsRestored(e: EventESDT)
    requires Count(e.identifier, '-') == 1 && Minimal(e.nonce) && |e.nonce| <= 8
    ensures ParsesBack(e)
    ensures NatToBytes(ParseTokenIdentifierIntoParts(e.ExtendedIdentifier()).value.nonce) == e.nonce
  {
    BytesToNatBound(e.nonce);
    ExtendedIdentifierParsesBackExactly(e);
    BytesNatRoundTrip(e.nonce);
  }

  /** An identifier without a dash is refused. */
  lemma {:induction false} WithoutDashIsRefused(e: EventESDT)
    requires '-' !in e.identifier && e.nonce == []
    ensures ParseTokenIdentifierIntoParts(e.ExtendedIdentifier()) == None && !ParsesBack(e)
  {
    SplitWithout(e.identifier, '-');
  }

  /** An identifier that looks like one with a nonce already is taken apart in the wrong place. */
  lemma {:induction false} SecondDashIsMisread(e: EventESDT, ticker: Bytes, random: Bytes, nonce: Bytes)
    requires '-' !in ticker && '-' !in random && 1 <= |nonce| <= 8
    requires e.identifier == ticker + ['-'] + random + ['-'] + HexEncode(nonce) && e.nonce == []
    ensures ParseTokenIdentifierIntoParts(e.ExtendedIdentifier())
         == Some(TokenIdentifierParts(ticker, random, ticker + "-" + random, BytesToNat(nonce)))
    ensures !ParsesBack(e)
  {
    hide Split;
    HexText(nonce);
    HexTextOfBytes(nonce);
    BytesToNatBound(nonce);
    SplitThree(ticker, '-', random, HexEncode(nonce));
    assert |e.identifier| > |ticker + "-" + random|;
  }

  /** Ticker and random sequence of a fungible token. */
  lemma {:induction false} FungibleParts(ticker: string, random: string)
    requires '-' !in ticker && '-' !in random
    ensures ParseTokenIdentifierIntoParts(ticker + "-" + random)
         == Some(TokenIdentifierParts(ticker, random, ticker + "-" + random, 0))
  {
    SplitFirst(ticker, '-', random);
    SplitWithout(random, '-');
    assert ticker + "-" + random == ticker + ['-'] + random;
  }

  /** Ticker, random sequence and nonce of a token with a nonce, which must be a number of 64 bits in hex. */
  lemma {:induction false} NonFungibleParts(ticker: string, random: string, nonce: string)
    requires '-' !in ticker && '-' !in random && '-' !in nonce
    ensures var parsed := ParseTokenIdentifierIntoParts(ticker + "-" + random + "-" + nonce);
      if nonce != "" && HexTextToNat(nonce).Some? && HexTextToNat(nonce).value < 0x1_0000_0000_0000_0000 then
        parsed == Some(TokenIdentifierParts(ticker, random, ticker + "-" + random, HexTextToNat(nonce).value))
      else parsed == None
  {
    hide Split;
    assert ticker + "-" + random + "-" + nonce == ticker + ['-'] + random + ['-'] + nonce;
    SplitThree(ticker, '-', random, nonce);
  }

  /** One dash or two, or it is no identifier. */
  lemma {:induction false} OtherDashesAreRefused(text: string)
    requires Count(text, '-') != 1 && Count(text, '-') != 2
    ensures ParseTokenIdentifierIntoParts(text) == None
  {
    SplitJoin(text, '-');
  }
}
