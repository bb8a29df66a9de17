/** The records handed to the component manager: a component descriptor and
    the dependencies it lists. Role and implementation names are plain
    strings, as the descriptor API takes them. */
module ComponentDescriptors {
  import opened Wrappers

  /** How the manager creates instances of a component. */
  datatype InstantiationStrategy = Singleton | PerLookup

  /** One injected dependency: the role looked up and, when given, the hint
      that selects among implementations of that role. `None` leaves the hint
      at the descriptor's default. */
  datatype ComponentDependency = ComponentDependency(role: string, roleHint: Option<string>)

  /** One registration: the role a class implements, the class itself, an
      optional hint (`None` = the descriptor's default hint), the
      instantiation strategy and the ordered dependency list. */
  datatype ComponentDescriptor = ComponentDescriptor(
    role: string,
    implementation: string,
    roleHint: Option<string>,
    instantiationStrategy: InstantiationStrategy,
    dependencies: seq<ComponentDependency>)
}
