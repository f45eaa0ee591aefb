/**
  The panel's listener arrays: listeners are added by copying into an array
  one longer, and an action event is delivered to every action listener in
  array order.
*/
module Listeners {

  /** An object registered to hear the panel's action events. */
  datatype ActionListener = ActionListener(id: nat)

  /** An object registered to hear the panel's forwarded key events. */
  datatype KeyListener = KeyListener(id: nat)

  /** An action event, identified by its command string. */
  datatype ActionEvent = ActionEvent(command: string)

  /** One call `listener.actionPerformed(event)`. */
  datatype Delivery = Delivery(listener: ActionListener, event: ActionEvent)

  /**
    `addActionListener` / `addKeyListener`: a new array one longer than `a`,
    holding `a`'s listeners in order followed by `x`.
  */
  method Appended<T>(a: array<T>, x: T) returns (b: array<T>)
    ensures fresh(b)
    ensures b.Length == a.Length + 1
    ensures forall i :: 0 <= i < a.Length ==> b[i] == a[i]
    ensures b[a.Length] == x
  {
    b := new T[a.Length + 1](_ => x);
    for index := 0 to a.Length
      invariant forall i :: 0 <= i < index ==> b[i] == a[i]
    {
      b[index] := a[index];
    }
    b[a.Length] := x;
  }

  /** The notification loop of `_endGame`: `event` goes to every listener, in array order. */
  method Broadcast(listeners: array<ActionListener>, event: ActionEvent) returns (sent: seq<Delivery>)
    ensures |sent| == listeners.Length
    ensures forall i :: 0 <= i < listeners.Length ==> sent[i] == Delivery(listeners[i], event)
  {
    sent := [];
    for index := 0 to listeners.Length
      invariant |sent| == index
      invariant forall i :: 0 <= i < index ==> sent[i] == Delivery(listeners[i], event)
    {
      sent := sent + [Delivery(listeners[index], event)];
    }
  }
}
