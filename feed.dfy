/**
 * The feed records the program reads, as typed values: an entry of the station-metadata document
 * (`Contents.dataObjects.ScheduledStopPoint[*]`) and a vehicle of the vehicle-monitoring document
 * (`Siri.ServiceDelivery.VehicleMonitoringDelivery.VehicleActivity[*].MonitoredVehicleJourney`).
 */
module Feed {

  /** A scheduled stop point: its `id` (a station code followed by a platform character) and `Name`. */
  datatype StationEntry = StationEntry(id: string, name: string)

  /** One of a vehicle's `OnwardCalls.OnwardCall`: the stop and two raw timestamps. */
  datatype OnwardCall = OnwardCall(stopPointRef: string, aimedDepartureTime: string, expectedDepartureTime: string)

  /** A monitored vehicle journey. */
  datatype Vehicle = Vehicle(vehicleRef: string, lineRef: string, directionRef: string, onwardCalls: seq<OnwardCall>)
}
