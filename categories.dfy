/** The state categories of the DynaPlex MDP framework that both modelled MDPs use. */
module Categories {

  /** AwaitAction carries the framework's action index (0 when none is given). */
  datatype StateCategory = AwaitEvent | AwaitAction(index: int) | Final
}
