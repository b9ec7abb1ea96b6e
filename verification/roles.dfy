/**
 The role manager that grouping rules are replayed into. Its implementation is
 not part of this model; what the rule store relies on is the set of links it
 has been handed since it was last cleared.
 */
module Roles {

  /** One AddLink call: `child` inherits `parent`, scoped by the extra (domain) arguments. */
  datatype Link = Link(child: string, parent: string, domain: seq<string>)

  /** Abstract role manager state: its depth bound and the links added since the last Clear. */
  datatype RoleGraph = RoleGraph(maxHierarchyLevel: nat, links: set<Link>)

  function NewRoleGraph(maxHierarchyLevel: nat): (g: RoleGraph)
    ensures g.links == {} && g.maxHierarchyLevel == maxHierarchyLevel
  {
    RoleGraph(maxHierarchyLevel, {})
  }

  function Clear(g: RoleGraph): (r: RoleGraph)
    ensures r.links == {} && r.maxHierarchyLevel == g.maxHierarchyLevel
  {
    g.(links := {})
  }

  function AddLink(g: RoleGraph, child: string, parent: string, domain: seq<string>): (r: RoleGraph)
    ensures r.links == g.links + {Link(child, parent, domain)}
    ensures r.maxHierarchyLevel == g.maxHierarchyLevel
  {
    g.(links := g.links + {Link(child, parent, domain)})
  }
}
