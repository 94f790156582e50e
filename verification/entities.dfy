/** The values the router stores and the settings it reads from the rest of the server. */
module Entities {

  /**
   * Server-wide settings that the router reads but does not own: the default
   * domain (gDEFAULT_DOMAIN), the sentinel method meaning "every method"
   * (gDEFAULT_METHOD) and the keys of the server's methodsMap.
   */
  datatype Config = Config(defaultDomain: string, defaultMethod: string, methods: set<string>)

  /** Stands for the callback a route dispatches to; the router never looks inside it. */
  type HandlerId = nat

  /**
   * A registered route (HandlerItem): the uri, domain and method filled in at
   * registration, the priority used to order dynamic routes, and the callback.
   */
  datatype HandlerItem = HandlerItem(uri: string, domain: string, httpMethod: string, priority: int, handler: HandlerId)
}
