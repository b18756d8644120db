/** The chains the bridge joins and the six routes between them
    (service/src/routes.rs). All six have settlement machinery, so a
    settlement direction and a route are the same thing here. */
module Routes {
  datatype Chain = Goldcoin | Solana | Robinhood

  datatype Route = GlcToSol | SolToGlc | GlcToRhn | RhnToGlc | SolToRhn | RhnToSol

  function SourceChain(route: Route): (c: Chain)
  {
    match route
    case GlcToSol | GlcToRhn => Goldcoin
    case SolToGlc | SolToRhn => Solana
    case RhnToGlc | RhnToSol => Robinhood
  }

  function DestinationChain(route: Route): (c: Chain)
  {
    match route
    case GlcToSol | RhnToSol => Solana
    case SolToGlc | RhnToGlc => Goldcoin
    case GlcToRhn | SolToRhn => Robinhood
  }

  predicate IsSolanaRobinhood(route: Route)
  {
    route == SolToRhn || route == RhnToSol
  }

  /** Whether the Robinhood custody contract models the route. */
  predicate HasContractRoute(route: Route)
  {
    route != GlcToSol && route != SolToGlc
  }

  /** No route stays on its chain; the contract models exactly the routes with a
      Robinhood leg, and the pair that may go unpriced is the one that never
      touches the home chain. */
  lemma RouteShape(route: Route)
    ensures SourceChain(route) != DestinationChain(route)
    ensures HasContractRoute(route) <==> Robinhood in {SourceChain(route), DestinationChain(route)}
    ensures IsSolanaRobinhood(route) <==> Goldcoin !in {SourceChain(route), DestinationChain(route)}
  {
  }

  const ALL_ROUTES: seq<Route> := [GlcToSol, SolToGlc, GlcToRhn, RhnToGlc, SolToRhn, RhnToSol]

  lemma AllRoutesListed(route: Route)
    ensures route in ALL_ROUTES
  {
    match route
    case GlcToSol => assert ALL_ROUTES[0] == route;
    case SolToGlc => assert ALL_ROUTES[1] == route;
    case GlcToRhn => assert ALL_ROUTES[2] == route;
    case RhnToGlc => assert ALL_ROUTES[3] == route;
    case SolToRhn => assert ALL_ROUTES[4] == route;
    case RhnToSol => assert ALL_ROUTES[5] == route;
  }
}
