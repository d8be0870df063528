/** The factory method example: trucks and ships are transports with a
    name and a type behind setters and getters. */
module FactoryMethod {
  /** Which concrete transport a factory made. */
  datatype Kind = Truck | Ship

  class Transport {
    const kind: Kind
    var name: string
    var transportType: string

    constructor (kind: Kind, name: string, transportType: string)
      ensures this.kind == kind && this.name == name && this.transportType == transportType
    {
      this.kind := kind;
      this.name := name;
      this.transportType := transportType;
    }

    /** setName: changes the name and nothing else. */
    method SetName(name: string)
      modifies this
      ensures GetName() == name
      ensures transportType == old(transportType)
    {
      this.name := name;
    }

    function GetName(): string
      reads this
    {
      name
    }

    /** setType: changes the type and nothing else. */
    method SetType(transportType: string)
      modifies this
      ensures GetType() == transportType
      ensures name == old(name)
    {
      this.transportType := transportType;
    }

    function GetType(): string
      reads this
    {
      transportType
    }
  }

  /** NewTruck. */
  method NewTruck(name: string, transportType: string) returns (t: Transport)
    ensures fresh(t)
    ensures t.kind == Truck && t.GetName() == name && t.GetType() == transportType
  {
    t := new Transport(Truck, name, transportType);
  }

  /** NewShip. */
  method NewShip(name: string, transportType: string) returns (t: Transport)
    ensures fresh(t)
    ensures t.kind == Ship && t.GetName() == name && t.GetType() == transportType
  {
    t := new Transport(Ship, name, transportType);
  }

  /** The example run: the truck's name and the ship's type are read back
      as they were given, and renaming one transport leaves the other and
      its own type alone. */
  method Example() returns (truckName: string, shipType: string, renamed: string, truckType: string)
    ensures truckName == "man" && shipType == "shipping"
    ensures renamed == "boat" && truckType == "land"
  {
    var t := NewTruck("man", "land");
    truckName := t.GetName();
    var s := NewShip("ship", "shipping");
    shipType := s.GetType();
    s.SetName("boat");
    renamed := s.GetName();
    truckType := t.GetType();
    assert t.GetName() == "man";
  }
}
