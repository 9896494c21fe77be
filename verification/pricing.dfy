/** The token viewer's pricing arithmetic, in exact rational numbers: the
    prompt cost in dollars, the cost in API2D credits ("P"), and the token
    budget a credit balance buys. A model missing from the tables gets no
    cost, credit or budget panel. */
module Pricing {
  import opened Seqs

  /** Dollars per token. */
  const PricePerToken: map<string, real> := map[
    "gpt-4" := 0.03 / 1000.0,
    "gpt-4-32k" := 0.03 / 1000.0,
    "gpt-3.5-turbo" := 0.002 / 1000.0,
    "text-embedding-ada-002" := 0.0004 / 1000.0
  ]

  /** API2D credits per token. */
  const CreditsPerToken: map<string, real> := map[
    "gpt-4" := 30.0 / 100.0,
    "gpt-4-32k" := 60.0 / 100.0,
    "gpt-3.5-turbo" := 1.0 / 100.0,
    "text-embedding-ada-002" := 1.0 / 500.0
  ]

  /** Tokens per API2D credit. */
  const TokensPerCredit: map<string, real> := map[
    "gpt-4" := 100.0 / 30.0,
    "gpt-4-32k" := 100.0 / 60.0,
    "gpt-3.5-turbo" := 100.0,
    "text-embedding-ada-002" := 500.0
  ]

  /** `Math.ceil`: the least integer not below `x`. */
  function Ceil(x: real): (c: int)
    ensures c as real >= x
    ensures (c - 1) as real < x
  {
    -((-x).Floor)
  }

  /** The three tables price the same models, so the budget lookup, which
      is guarded only by the credit table, always finds its rate; and the
      budget rate is the exact inverse of the credit rate. */
  lemma RateTablesAgree()
    ensures PricePerToken.Keys == CreditsPerToken.Keys == TokensPerCredit.Keys
    ensures forall m :: m in TokensPerCredit ==> TokensPerCredit[m] * CreditsPerToken[m] == 1.0
  {
  }

  /** Cost panel: present exactly for a priced model, and then the rate
      times the token count. */
  function Cost(model: Option<string>, tokenCount: nat): (r: Option<real>)
    ensures r.Some? <==> model.Some? && model.value in PricePerToken
    ensures r.Some? ==> r.value >= 0.0
  {
    if model.Some? && model.value in PricePerToken
    then Some(PricePerToken[model.value] * tokenCount as real)
    else None
  }

  /** 2500 gpt-3.5-turbo tokens cost exactly half a cent. */
  lemma CostExample()
    ensures Cost(Some("gpt-3.5-turbo"), 2500) == Some(0.005)
  {
  }

  /** The cost of two token counts together is the sum of their costs. */
  lemma CostIsAdditive(model: string, a: nat, b: nat)
    requires model in PricePerToken
    ensures Cost(Some(model), a + b).value == Cost(Some(model), a).value + Cost(Some(model), b).value
  {
  }

  /** Credit panel: the credit rate times the token count, rounded up, and
      never below one credit. */
  function Credits(model: Option<string>, tokenCount: nat): (r: Option<int>)
    ensures r.Some? <==> model.Some? && model.value in CreditsPerToken
    ensures r.Some? ==>
              var exact := CreditsPerToken[model.value] * tokenCount as real;
              && r.value >= 1
              && r.value as real >= exact
              && (r.value == 1 || (r.value - 1) as real < exact)
  {
    if model.Some? && model.value in CreditsPerToken
    then
      var c := Ceil(CreditsPerToken[model.value] * tokenCount as real);
      Some(if c > 1 then c else 1)
    else None
  }

  /** More tokens never cost fewer credits. */
  lemma CreditsMonotone(model: string, a: nat, b: nat)
    requires model in CreditsPerToken && a <= b
    ensures Credits(Some(model), a).value <= Credits(Some(model), b).value
  {
  }

  /** `parseInt(input) || 0`: NaN and zero both give zero. */
  function BalanceFromInput(parsed: Option<int>): (p: int)
    ensures parsed.None? ==> p == 0
    ensures parsed.Some? ==> p == parsed.value
  {
    match parsed
    case None => 0
    case Some(v) => if v == 0 then 0 else v
  }

  /** Budget panel, shown for models of the credit table: the token rate
      times the balance, rounded up; a negative balance is not clamped. */
  function Budget(model: Option<string>, p: int): (r: Option<int>)
    ensures r.Some? <==> model.Some? && model.value in CreditsPerToken
    ensures r.Some? ==>
              var exact := TokensPerCredit[model.value] * p as real;
              r.value as real >= exact && (r.value - 1) as real < exact
  {
    if model.Some? && model.value in CreditsPerToken
    then
      RateTablesAgree();
      Some(Ceil(TokensPerCredit[model.value] * p as real))
    else None
  }

  /** A zero or unparsable balance buys zero tokens, a non-negative balance
      a non-negative budget, and a negative balance a negative one. */
  lemma BudgetSign(model: string, p: int)
    requires model in CreditsPerToken
    ensures Budget(Some(model), BalanceFromInput(None)) == Some(0)
    ensures p >= 0 ==> Budget(Some(model), p).value >= 0
    ensures p < 0 ==> Budget(Some(model), p).value <= 0
    ensures Budget(Some("gpt-3.5-turbo"), -1) == Some(-100)
  {
  }

  /** The budget is conservative by at most one token: its tokens cost at
      least the balance, and one token fewer costs at most the balance.
      This rests on tokens-per-credit times credits-per-token being 1. */
  lemma BudgetInvertsCredits(model: string, p: int)
    requires model in CreditsPerToken && p >= 1
    ensures Budget(Some(model), p).value >= 1
    ensures Credits(Some(model), Budget(Some(model), p).value).value >= p
    ensures Credits(Some(model), Budget(Some(model), p).value - 1).value <= p
  {
  }
}
