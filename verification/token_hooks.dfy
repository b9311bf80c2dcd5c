/** The price arithmetic behind the token hooks. The store reads the hooks
    make (the token map, the token list, the local-currency exchange rate)
    are explicit inputs; amounts and prices are exact reals. */
module TokenHooks {
  import opened Wrappers

  /** A present price; the model takes it to be non-zero. */
  type Price = p: real | p != 0.0 witness 1.0

  datatype TokenInfo = TokenInfo(address: string, symbol: string, usdPrice: Option<Price>)

  /** Token information keyed by token address. */
  type TokensByAddress = map<string, TokenInfo>

  /** `tokens[address]`, or `None` when the address is unknown. */
  function TokenInfoAt(tokens: TokensByAddress, address: string): (r: Option<TokenInfo>)
    ensures r.Some? <==> address in tokens
    ensures r.Some? ==> r.value == tokens[address]
  {
    if address in tokens then Some(tokens[address]) else None
  }

  /** `tokens[address]?.usdPrice`. */
  function UsdPriceAt(tokens: TokensByAddress, address: string): (r: Option<Price>)
    ensures r.Some? <==> address in tokens && tokens[address].usdPrice.Some?
    ensures r.Some? ==> r.value == tokens[address].usdPrice.value
  {
    match TokenInfoAt(tokens, address)
    case Some(info) => info.usdPrice
    case None => None
  }

  /** The index of the first token in list order whose symbol is `symbol`. */
  function IndexOfSymbol(tokens: seq<TokenInfo>, symbol: string): (r: Option<nat>)
    ensures r.None? <==> forall i :: 0 <= i < |tokens| ==> tokens[i].symbol != symbol
    ensures r.Some? ==>
      && r.value < |tokens|
      && tokens[r.value].symbol == symbol
      && forall j :: 0 <= j < r.value ==> tokens[j].symbol != symbol
    decreases |tokens|
  {
    if |tokens| == 0 then None
    else if tokens[0].symbol == symbol then Some(0)
    else
      match IndexOfSymbol(tokens[1..], symbol)
      case None => None
      case Some(i) => Some(i + 1)
  }

  /** The first token in list order with the given symbol, if any. */
  function TokenInfoBySymbol(tokens: seq<TokenInfo>, symbol: string): (r: Option<TokenInfo>)
    ensures r.None? <==> forall i :: 0 <= i < |tokens| ==> tokens[i].symbol != symbol
    ensures r.Some? ==> r.value.symbol == symbol
    ensures r.Some? ==>
      exists i :: (0 <= i < |tokens| && tokens[i] == r.value
                   && forall j :: 0 <= j < i ==> tokens[j].symbol != symbol)
  {
    match IndexOfSymbol(tokens, symbol)
    case None => None
    case Some(i) => Some(tokens[i])
  }

  /** The token amount worth `localAmount` in the local currency, given the
      local-currency units per US dollar; `None` when the token price or the
      exchange rate is missing. */
  function LocalToTokenAmount(tokens: TokensByAddress, usdExchangeRate: Option<Price>,
                              localAmount: real, address: string): (r: Option<real>)
    ensures r.None? <==> UsdPriceAt(tokens, address).None? || usdExchangeRate.None?
    ensures r.Some? ==> r.value * UsdPriceAt(tokens, address).value * usdExchangeRate.value == localAmount
  {
    var price := UsdPriceAt(tokens, address);
    if price.None? || usdExchangeRate.None? then None
    else Some(localAmount / usdExchangeRate.value / price.value)
  }

  /** The local-currency value of `tokenAmount`; `None` when the token price
      or the exchange rate is missing. */
  function TokenToLocalAmount(tokens: TokensByAddress, usdExchangeRate: Option<Price>,
                              tokenAmount: real, address: string): (r: Option<real>)
    ensures r.None? <==> UsdPriceAt(tokens, address).None? || usdExchangeRate.None?
    ensures r.Some? ==> r.value / usdExchangeRate.value / UsdPriceAt(tokens, address).value == tokenAmount
  {
    var price := UsdPriceAt(tokens, address);
    if price.None? || usdExchangeRate.None? then None
    else Some(tokenAmount * price.value * usdExchangeRate.value)
  }

  /** The US-dollar value of `amount`; `None` when the token has no price. */
  function AmountAsUsd(tokens: TokensByAddress, amount: real, address: string): (r: Option<real>)
    ensures r.None? <==> UsdPriceAt(tokens, address).None?
    ensures r.Some? ==> r.value / UsdPriceAt(tokens, address).value == amount
  {
    var price := UsdPriceAt(tokens, address);
    if price.None? then None else Some(amount * price.value)
  }

  /** The amount of the token at `newAddress` worth `amount` of the token at
      `address`; `None` when either token has no price. */
  function ConvertBetweenTokens(balances: TokensByAddress, amount: real,
                                address: string, newAddress: string): (r: Option<real>)
    ensures r.None? <==> UsdPriceAt(balances, address).None? || UsdPriceAt(balances, newAddress).None?
    ensures r.Some? ==>
      r.value * UsdPriceAt(balances, newAddress).value == amount * UsdPriceAt(balances, address).value
  {
    var price := UsdPriceAt(balances, address);
    var newPrice := UsdPriceAt(balances, newAddress);
    if price.None? || newPrice.None? then None
    else Some(amount * price.value / newPrice.value)
  }

  // ---------------------------------------------------------------------------
  // How the conversions relate

  /** Cancelling a non-zero price. */
  lemma DivThenMul(x: real, p: Price)
    ensures x / p * p == x
  {
  }

  lemma MulThenDiv(x: real, p: Price)
    ensures x * p / p == x
  {
  }

  /** Converting a local amount to tokens and back gives the local amount. */
  lemma LocalTokenRoundTrip(tokens: TokensByAddress, usdExchangeRate: Option<Price>,
                            localAmount: real, address: string)
    requires LocalToTokenAmount(tokens, usdExchangeRate, localAmount, address).Some?
    ensures TokenToLocalAmount(tokens, usdExchangeRate,
              LocalToTokenAmount(tokens, usdExchangeRate, localAmount, address).value, address)
            == Some(localAmount)
  {
  }

  /** Converting a token amount to the local currency and back gives the
      token amount. */
  lemma TokenLocalRoundTrip(tokens: TokensByAddress, usdExchangeRate: Option<Price>,
                            tokenAmount: real, address: string)
    requires TokenToLocalAmount(tokens, usdExchangeRate, tokenAmount, address).Some?
    ensures LocalToTokenAmount(tokens, usdExchangeRate,
              TokenToLocalAmount(tokens, usdExchangeRate, tokenAmount, address).value, address)
            == Some(tokenAmount)
  {
  }

  /** The local value of a token amount is its dollar value times the
      exchange rate. */
  lemma TokenToLocalViaUsd(tokens: TokensByAddress, usdExchangeRate: Option<Price>,
                           tokenAmount: real, address: string)
    requires usdExchangeRate.Some?
    ensures TokenToLocalAmount(tokens, usdExchangeRate, tokenAmount, address).Some?
        <==> AmountAsUsd(tokens, tokenAmount, address).Some?
    ensures AmountAsUsd(tokens, tokenAmount, address).Some? ==>
      TokenToLocalAmount(tokens, usdExchangeRate, tokenAmount, address).value
        == AmountAsUsd(tokens, tokenAmount, address).value * usdExchangeRate.value
  {
  }

  /** Converting a token amount into the same token gives it back. */
  lemma ConvertToSelf(balances: TokensByAddress, amount: real, address: string)
    requires UsdPriceAt(balances, address).Some?
    ensures ConvertBetweenTokens(balances, amount, address, address) == Some(amount)
  {
  }

  /** Converting there and back gives the original amount. */
  lemma ConvertRoundTrip(balances: TokensByAddress, amount: real, address: string, newAddress: string)
    requires ConvertBetweenTokens(balances, amount, address, newAddress).Some?
    ensures ConvertBetweenTokens(balances,
              ConvertBetweenTokens(balances, amount, address, newAddress).value, newAddress, address)
            == Some(amount)
  {
    var p: real := UsdPriceAt(balances, address).value;
    var q: real := UsdPriceAt(balances, newAddress).value;
    var t := ConvertBetweenTokens(balances, amount, address, newAddress).value;
    assert t == amount * p / q;
    var back := ConvertBetweenTokens(balances, t, newAddress, address);
    assert back.value == t * q / p;
    assert t * q / p == amount by {
      DivThenMul(amount * p, q);
      MulThenDiv(amount, p);
    }
  }

  /** Converting through an intermediate token is the same as converting
      directly. */
  lemma ConvertCompose(balances: TokensByAddress, amount: real, a: string, b: string, c: string)
    requires UsdPriceAt(balances, a).Some? && UsdPriceAt(balances, b).Some? && UsdPriceAt(balances, c).Some?
    ensures ConvertBetweenTokens(balances,
              ConvertBetweenTokens(balances, amount, a, b).value, b, c)
            == ConvertBetweenTokens(balances, amount, a, c)
  {
  }

  /** A conversion keeps the dollar value of the amount. */
  lemma ConvertKeepsUsdValue(balances: TokensByAddress, amount: real, address: string, newAddress: string)
    requires ConvertBetweenTokens(balances, amount, address, newAddress).Some?
    ensures AmountAsUsd(balances, ConvertBetweenTokens(balances, amount, address, newAddress).value, newAddress)
         == AmountAsUsd(balances, amount, address)
  {
  }
}
