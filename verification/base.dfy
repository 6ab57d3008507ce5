/** Failure-carrying datatypes shared by every part of the flow plotter model.

    The plotter has no error recovery of its own: whatever Python raises ends the
    run. Each `Error` variant names the exception it stands for, so a function
    returning `Err(e)` is exactly a call that raises in the plotter.
 */
module Base {

  datatype Option<T> = None | Some(value: T)

  datatype Error =
    /** `assert self.flows` in flow_and_state fails: the flow list is empty. */
    | FlowsNotInitialized
    /** A state has no `action` key (KeyError). */
    | MissingAction
    /** The action is not a string where `.split` is called (AttributeError):
        a mapping without `next`, or a null or numeric action. */
    | ActionNotString
    /** The handler module or the named function in it cannot be loaded. */
    | HandlerNotFound(name: string, path: string)
    /** Nothing but whitespace follows the `return` at this index (IndexError of `split()[0]`). */
    | NoReturnValue(index: nat)
    /** `generate_colors(0)` divides 256 by zero (ZeroDivisionError). */
    | NoColors
    /** The flow-colour dictionary has no `default` entry (KeyError). */
    | MissingDefaultFlow

  datatype Result<T> = Ok(value: T) | Err(error: Error)
}
